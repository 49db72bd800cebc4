/** The page search `find` of kernel/mm/mm.c on an arbitrary set of free pages: which pages it looks
    at, and exactly for which arguments that makes it a first-fit search. Pages are numbered. */
module FindPages {
  import opened RunScan

  const BITS := 32   // pages per bitmap word

  /** The search in progress: a run found, or the length of the current run and where it began. */
  datatype Walk = Found(page: int) | Going(count: nat, start: int)

  /** One call of `test`. */
  function Test(free: int -> bool, num: nat, w: Walk, page: int): Walk {
    match w
    case Found(_) => w
    case Going(count, start) =>
      if !free(page) then Going(0, start)
      else
        var s := if count == 0 then page else start;
        if count + 1 >= num then Found(s) else Going(count + 1, s)
  }

  /** `test` on the pages from `lo` up to `hi`. */
  function Pass(free: int -> bool, num: nat, w: Walk, lo: int, hi: int): Walk
    decreases hi - lo, num
  {
    if lo >= hi then w else Pass(free, num, Test(free, num, w, lo), lo + 1, hi)
  }

  /** The first whole word, after a first partial word if `start` is inside one. */
  function FirstWord(start: nat): nat {
    start / BITS + if start % BITS == 0 then 0 else 1
  }

  /** The word after the last one scanned whole; one too low if `end` is inside a word. */
  function LastWord(end: nat): int {
    end / BITS - if end % BITS == 0 then 0 else 1
  }

  /** The three loops of `find`. */
  function FindWalk(free: int -> bool, num: nat, start: nat, end: nat): Walk {
    var w1 := if start % BITS == 0 then Going(0, 1) else Pass(free, num, Going(0, 1), start, FirstWord(start) * BITS);
    var w2 := Pass(free, num, w1, FirstWord(start) * BITS, LastWord(end) * BITS);
    if end % BITS == 0 then w2 else Pass(free, num, w2, end / BITS * BITS, end)
  }

  // ---------- a contiguous pass is a first-fit scan ----------

  /** The walk `w` is what scanning [from, pos) gives. */
  ghost predicate WalkInv(free: int -> bool, from: int, end: int, num: nat, pos: int, w: Walk) {
    match w
    case Found(s) => FirstFit(free, from, end, num, s)
    case Going(count, start) => Scanned(free, from, num, pos, count) && (count > 0 ==> start == pos - count)
  }

  lemma {:induction false} PassScan(free: int -> bool, from: int, end: int, num: nat, w: Walk, lo: int, hi: int)
    requires WalkInv(free, from, end, num, lo, w) && lo <= hi <= end
    ensures WalkInv(free, from, end, num, hi, Pass(free, num, w, lo, hi))
    decreases hi - lo
  {
    if lo < hi {
      if w.Going? {
        if free(lo) { ScanFree(free, from, end, num, lo, w.count, lo + 1); } else { ScanUsed(free, from, num, lo, w.count); }
      }
      PassScan(free, from, end, num, Test(free, num, w, lo), lo + 1, hi);
    }
  }

  /** The pages `find` looks at are [start, end), in order. */
  predicate Contiguous(start: nat, end: nat) {
    || end % BITS == 0
    || (start / BITS == end / BITS && start % BITS == 0)
    || (start / BITS + 1 == end / BITS && start % BITS != 0)
  }

  /** The search meets its promise: the lowest run in [start, end), or none exactly when there is none. */
  ghost predicate Correct(free: int -> bool, num: nat, start: nat, end: nat) {
    match FindWalk(free, num, start, end)
    case Found(s) => FirstFit(free, start, end, num, s)
    case Going(_, _) => NoFit(free, start, end, num)
  }

  lemma ContiguousCorrect(free: int -> bool, num: nat, start: nat, end: nat)
    requires num > 0 && start <= end && Contiguous(start, end)
    ensures Correct(free, num, start, end)
  {
    ScanStart(free, start, num);
    var w0 := Going(0, 1);
    var a, b := FirstWord(start) * BITS, LastWord(end) * BITS;
    if start / BITS == end / BITS {
      PassScan(free, start, end, num, w0, end / BITS * BITS, end);
    } else {
      if start % BITS != 0 { PassScan(free, start, end, num, w0, start, a); }
      var w1 := if start % BITS == 0 then w0 else Pass(free, num, w0, start, a);
      if a <= b { PassScan(free, start, end, num, w1, a, b); }
      var w2 := Pass(free, num, w1, a, b);
      if end % BITS != 0 { PassScan(free, start, end, num, w2, end / BITS * BITS, end); }
    }
  }

  // ---------- everywhere else it fails ----------

  /** Too few pages are left to complete a run. */
  lemma {:induction false} PassShort(free: int -> bool, num: nat, w: Walk, lo: int, hi: int)
    requires w.Going? && lo <= hi && w.count + (hi - lo) < num
    ensures var r := Pass(free, num, w, lo, hi); r.Going? && r.count <= w.count + (hi - lo)
    decreases hi - lo
  {
    if lo < hi { PassShort(free, num, Test(free, num, w, lo), lo + 1, hi); }
  }

  /** A pass over used pages resets the run. */
  lemma {:induction false} PassUsed(free: int -> bool, num: nat, w: Walk, lo: int, hi: int)
    requires w.Going? && lo < hi && forall q | lo <= q < hi :: !free(q)
    ensures Pass(free, num, w, lo, hi) == Going(0, w.start)
    decreases hi - lo
  {
    if lo + 1 < hi { PassUsed(free, num, Test(free, num, w, lo), lo + 1, hi); }
  }

  /** A pass over free pages that complete the run finds it. */
  lemma {:induction false} PassFinds(free: int -> bool, num: nat, w: Walk, lo: int, hi: int)
    requires w.Going? && w.count < num <= w.count + (hi - lo) && AllFree(free, lo, hi)
    ensures Pass(free, num, w, lo, hi) == Found(if w.count == 0 then lo else w.start)
    decreases hi - lo
  {
    if w.count + 1 >= num {
      PassFound(free, num, Test(free, num, w, lo), lo + 1, hi);
    } else {
      PassFinds(free, num, Test(free, num, w, lo), lo + 1, hi);
    }
  }

  lemma {:induction false} PassFound(free: int -> bool, num: nat, w: Walk, lo: int, hi: int)
    requires w.Found?
    ensures Pass(free, num, w, lo, hi) == w
    decreases hi - lo
  {
    if lo < hi { PassFound(free, num, w, lo + 1, hi); }
  }

  lemma {:induction false} PassSplit(free: int -> bool, num: nat, w: Walk, lo: int, mid: int, hi: int)
    requires lo <= mid <= hi
    ensures Pass(free, num, w, lo, hi) == Pass(free, num, Pass(free, num, w, lo, mid), mid, hi)
    decreases mid - lo
  {
    if lo < mid { PassSplit(free, num, Test(free, num, w, lo), lo + 1, mid, hi); }
  }

  /** A pass over free pages that are not enough makes the run longer. */
  lemma {:induction false} PassGrows(free: int -> bool, num: nat, w: Walk, lo: int, hi: int)
    requires w.Going? && lo < hi && w.count + (hi - lo) < num && AllFree(free, lo, hi)
    ensures Pass(free, num, w, lo, hi) == Going(w.count + (hi - lo), if w.count == 0 then lo else w.start)
    decreases hi - lo
  {
    if lo + 1 < hi { PassGrows(free, num, Test(free, num, w, lo), lo + 1, hi); }
  }

  /** Only the pages from `s` up to `e` are free. */
  function Only(s: int, e: int): int -> bool {
    q => s <= q < e
  }

  function Overlap(s: int, e: int, lo: int, hi: int): nat {
    var a, b := if s < lo then lo else s, if e < hi then e else hi;
    if a < b then b - a else 0
  }

  /** Nothing is found where fewer than `num` free pages are looked at. */
  lemma {:induction false} PassOnly(s: int, e: int, num: nat, w: Walk, lo: int, hi: int)
    requires w.Going? && lo <= hi && w.count + Overlap(s, e, lo, hi) < num
    ensures var r := Pass(Only(s, e), num, w, lo, hi); r.Going? && r.count <= w.count + Overlap(s, e, lo, hi)
    decreases hi - lo
  {
    if lo < hi { PassOnly(s, e, num, Test(Only(s, e), num, w, lo), lo + 1, hi); }
  }

  /** When the word before the last partial one is skipped, a run across it is missed. */
  lemma SkipsWord(num: nat, start: nat, end: nat) returns (free: int -> bool)
    requires 0 < num <= end - start && !Contiguous(start, end) && start / BITS < end / BITS
    ensures !Correct(free, num, start, end)
  {
    var last := end / BITS * BITS;
    var s := if num <= last - start then last - num else start;
    free := Only(s, s + num);
    var a, b := FirstWord(start) * BITS, last - BITS;
    assert start <= a <= b;
    var w0 := Going(0, 1);
    PassOnly(s, s + num, num, w0, start, a);
    var w1 := Pass(free, num, w0, start, a);
    PassOnly(s, s + num, num, w1, a, b);
    PassOnly(s, s + num, num, Pass(free, num, w1, a, b), last, end);
    assert Fits(free, num, s);
  }

  /** When `start` is in the same word as `end` and not at its beginning, the search runs past `end`. */
  lemma OverrunsEnd(num: nat, start: nat, end: nat) returns (free: int -> bool)
    requires start <= end && start / BITS == end / BITS && !Contiguous(start, end)
    requires 0 < num <= (BITS - start % BITS) + end % BITS
    ensures !Correct(free, num, start, end)
  {
    var w0, a, e0 := Going(0, 1), FirstWord(start) * BITS, end / BITS * BITS;
    if num <= a - start {
      free := Only(a - num, a);
      PassSplit(free, num, w0, start, a - num, a);
      PassOnly(a - num, a, num, w0, start, a - num);
      PassFinds(free, num, Pass(free, num, w0, start, a - num), a - num, a);
      PassFound(free, num, Found(a - num), e0, end);
    } else {
      free := q => true;
      PassGrows(free, num, w0, start, a);
      PassFinds(free, num, Going(a - start, start), e0, end);
    }
  }

  /** The longest run the search could report. */
  function Reach(start: nat, end: nat): int {
    if start / BITS == end / BITS then (BITS - start % BITS) + end % BITS else end - start
  }

  lemma TooLongCorrect(free: int -> bool, num: nat, start: nat, end: nat)
    requires start <= end && !Contiguous(start, end) && num > Reach(start, end)
    ensures Correct(free, num, start, end)
  {
    var w0, a, e0 := Going(0, 1), FirstWord(start) * BITS, end / BITS * BITS;
    var b := LastWord(end) * BITS;
    PassShort(free, num, w0, start, a);
    var w1 := Pass(free, num, w0, start, a);
    if a <= b { PassShort(free, num, w1, a, b); }
    PassShort(free, num, Pass(free, num, w1, a, b), e0, end);
  }

  /** `find` is a first-fit search of [start, end) for every set of free pages exactly when `end` is on a
      32-page boundary, or the two ends lie such that no word is skipped, or the run cannot fit at all. */
  lemma FindCorrectIff(num: nat, start: nat, end: nat)
    requires num > 0 && start <= end
    ensures (forall free: int -> bool :: Correct(free, num, start, end)) <==>
            Contiguous(start, end) || num > Reach(start, end)
  {
    if Contiguous(start, end) {
      forall free: int -> bool ensures Correct(free, num, start, end) { ContiguousCorrect(free, num, start, end); }
    } else if num > Reach(start, end) {
      forall free: int -> bool ensures Correct(free, num, start, end) { TooLongCorrect(free, num, start, end); }
    } else if start / BITS == end / BITS {
      var free := OverrunsEnd(num, start, end);
    } else {
      var free := SkipsWord(num, start, end);
    }
  }

  // ---------- what is found in any case ----------

  /** How many pages the three loops look at, and which page they look at in place `i`. */
  function FirstLength(start: nat): nat { FirstWord(start) * BITS - start }

  function MiddleLength(start: nat, end: nat): nat {
    var n := LastWord(end) * BITS - FirstWord(start) * BITS;
    if n < 0 then 0 else n
  }

  function SeenPages(start: nat, end: nat): nat {
    FirstLength(start) + MiddleLength(start, end) + end % BITS
  }

  function SeenAt(start: nat, end: nat, i: int): int {
    var a, b := FirstLength(start), MiddleLength(start, end);
    if i < a + b then start + i else end / BITS * BITS + (i - a - b)
  }

  /** The free pages, in the order the loops look at them. */
  function Seen(free: int -> bool, start: nat, end: nat): int -> bool {
    i => free(SeenAt(start, end, i))
  }

  /** The walk `w` is what looking at the first `i` pages gives: a run found, in first place, or none. */
  ghost predicate SeenInv(free: int -> bool, num: nat, start: nat, end: nat, i: int, w: Walk) {
    var g, n := Seen(free, start, end), SeenPages(start, end);
    match w
    case Found(p) => exists s: nat | s < n :: FoundAt(free, num, start, end, s, p)
    case Going(count, first) => Scanned(g, 0, num, i, count) && (count > 0 ==> first == SeenAt(start, end, i - count))
  }

  ghost predicate FoundAt(free: int -> bool, num: nat, start: nat, end: nat, s: nat, p: int) {
    FirstFit(Seen(free, start, end), 0, SeenPages(start, end), num, s) && p == SeenAt(start, end, s)
  }

  /** From place `i` on the pages from `lo` up to `hi` are looked at. */
  ghost predicate SeenPart(start: nat, end: nat, i: int, lo: int, hi: int) {
    forall k | i <= k < i + (hi - lo) :: SeenAt(start, end, k) == lo + (k - i)
  }

  lemma SeenParts(start: nat, end: nat)
    ensures SeenPart(start, end, 0, start, FirstWord(start) * BITS)
    ensures SeenPart(start, end, FirstLength(start), FirstWord(start) * BITS, LastWord(end) * BITS)
    ensures SeenPart(start, end, FirstLength(start) + MiddleLength(start, end), end / BITS * BITS, end)
  {
  }

  lemma {:induction false} PassSees(free: int -> bool, num: nat, start: nat, end: nat, w: Walk, i: int, lo: int, hi: int)
    requires num > 0 && lo <= hi && i + (hi - lo) <= SeenPages(start, end)
    requires SeenPart(start, end, i, lo, hi)
    requires SeenInv(free, num, start, end, i, w)
    ensures SeenInv(free, num, start, end, i + (hi - lo), Pass(free, num, w, lo, hi))
    decreases hi - lo
  {
    if lo < hi {
      assert SeenAt(start, end, i) == lo;
      SeenNext(free, num, start, end, w, i);
      PassSees(free, num, start, end, Test(free, num, w, lo), i + 1, lo + 1, hi);
    }
  }

  lemma SeenNext(free: int -> bool, num: nat, start: nat, end: nat, w: Walk, i: int)
    requires num > 0 && i < SeenPages(start, end) && SeenInv(free, num, start, end, i, w)
    ensures SeenInv(free, num, start, end, i + 1, Test(free, num, w, SeenAt(start, end, i)))
  {
    var g, n, page := Seen(free, start, end), SeenPages(start, end), SeenAt(start, end, i);
    if w.Going? {
      assert g(i) == free(page);
      if free(page) {
        ScanFree(g, 0, n, num, i, w.count, i + 1);
        var s := i - w.count;
        if w.count + 1 >= num { assert FoundAt(free, num, start, end, s, SeenAt(start, end, s)); }
      } else {
        ScanUsed(g, 0, num, i, w.count);
      }
    }
  }

  /** Whatever the ends: `find` is a first-fit search of the pages it looks at, in the order it does. */
  lemma FindSees(free: int -> bool, num: nat, start: nat, end: nat)
    requires num > 0
    ensures match FindWalk(free, num, start, end)
            case Found(p) => exists s: nat | s < SeenPages(start, end) :: FoundAt(free, num, start, end, s, p)
            case Going(_, _) => NoFit(Seen(free, start, end), 0, SeenPages(start, end), num)
  {
    var w0 := Going(0, 1);
    ScanStart(Seen(free, start, end), 0, num);
    SeenParts(start, end);
    PassSees(free, num, start, end, w0, 0, start, FirstWord(start) * BITS);
    var w1 := if start % BITS == 0 then w0 else Pass(free, num, w0, start, FirstWord(start) * BITS);
    MiddleSees(free, num, start, end, w1);
    var w2 := Pass(free, num, w1, FirstWord(start) * BITS, LastWord(end) * BITS);
    PassSees(free, num, start, end, w2, FirstLength(start) + MiddleLength(start, end), end / BITS * BITS, end);
  }

  lemma MiddleSees(free: int -> bool, num: nat, start: nat, end: nat, w: Walk)
    requires num > 0 && SeenInv(free, num, start, end, FirstLength(start), w)
    ensures SeenInv(free, num, start, end, FirstLength(start) + MiddleLength(start, end),
                    Pass(free, num, w, FirstWord(start) * BITS, LastWord(end) * BITS))
  {
    SeenParts(start, end);
    if FirstWord(start) <= LastWord(end) {
      PassSees(free, num, start, end, w, FirstLength(start), FirstWord(start) * BITS, LastWord(end) * BITS);
    }
  }

  /** The pages looked at. */
  predicate Looked(start: nat, end: nat, q: int) {
    || start <= q < FirstWord(start) * BITS
    || FirstWord(start) * BITS <= q < LastWord(end) * BITS
    || end / BITS * BITS <= q < end
  }

  lemma LookedAt(start: nat, end: nat, q: int) returns (i: nat)
    requires Looked(start, end, q)
    ensures i < SeenPages(start, end) && SeenAt(start, end, i) == q
  {
    SeenParts(start, end);
    var a, b := FirstWord(start) * BITS, LastWord(end) * BITS;
    i := if start <= q < a || a <= q < b then q - start
         else FirstLength(start) + MiddleLength(start, end) + (q - end / BITS * BITS);
  }

  /** A single page is found exactly if one of the pages looked at is free; the one found is the first of them. */
  lemma SinglePageFound(free: int -> bool, start: nat, end: nat)
    ensures FindWalk(free, 1, start, end).Found? <==> exists q :: Looked(start, end, q) && free(q)
  {
    FindSees(free, 1, start, end);
    var g := Seen(free, start, end);
    match FindWalk(free, 1, start, end)
    case Found(p) =>
      var s: nat :| s < SeenPages(start, end) && FoundAt(free, 1, start, end, s, p);
      assert g(s) && Fits(g, 1, s);
      assert Looked(start, end, p) && free(p);
    case Going(_, _) =>
      forall q | Looked(start, end, q) ensures !free(q) {
        var i := LookedAt(start, end, q);
        assert !Fits(g, 1, i);
        assert !g(i);
      }
  }

  /** The run in places [s, s + num) is a run of pages exactly if it does not cross the gap or the way back that may
      lie before the last loop. */
  predicate InOnePart(num: nat, start: nat, end: nat, s: nat) {
    || s + num <= FirstLength(start) + MiddleLength(start, end)
    || FirstLength(start) + MiddleLength(start, end) <= s
    || FirstLength(start) + MiddleLength(start, end) == end / BITS * BITS - start
  }

  /** Then the pages reported are free. */
  lemma FoundIsFree(free: int -> bool, num: nat, start: nat, end: nat, s: nat, p: int)
    requires FoundAt(free, num, start, end, s, p) && InOnePart(num, start, end, s)
    ensures AllFree(free, p, p + num)
  {
    var g := Seen(free, start, end);
    forall q | p <= q < p + num ensures free(q) {
      assert g(s + (q - p));
      assert SeenAt(start, end, s + (q - p)) == q;
    }
  }

  // ---------- what can be relied on without alignment ----------

  /** The run so far ends at or before `bound`. */
  predicate Bounded(w: Walk, num: nat, bound: int) {
    match w
    case Found(s) => 0 <= s && s + num <= bound
    case Going(count, start) => count > 0 ==> 0 <= start && start + count <= bound
  }

  lemma {:induction false} PassBound(free: int -> bool, num: nat, w: Walk, lo: int, hi: int, bound: int)
    requires 0 < num && 0 <= lo <= hi && lo <= bound && Bounded(w, num, bound) && (w.Going? ==> w.count < num)
    ensures Bounded(Pass(free, num, w, lo, hi), num, bound + (hi - lo))
    ensures Pass(free, num, w, lo, hi).Going? ==> Pass(free, num, w, lo, hi).count < num
    decreases hi - lo
  {
    if lo < hi { PassBound(free, num, Test(free, num, w, lo), lo + 1, hi, bound + 1); }
  }

  /** Whatever is reported ends before page `end` or, if that is lower, two words behind `start`. */
  lemma FoundBounded(free: int -> bool, num: nat, start: nat, end: nat)
    requires num > 0
    ensures var w := FindWalk(free, num, start, end);
            w.Found? ==> 0 <= w.page && (w.page + num <= end || w.page + num <= (FirstWord(start) + 1) * BITS)
  {
    var w0, a, b, e0 := Going(0, 1), FirstWord(start) * BITS, LastWord(end) * BITS, end / BITS * BITS;
    if start % BITS != 0 { PassBound(free, num, w0, start, a, start); }
    var w1 := if start % BITS == 0 then w0 else Pass(free, num, w0, start, a);
    if a <= b { PassBound(free, num, w1, a, b, a); }
    var w2 := Pass(free, num, w1, a, b);
    if end % BITS != 0 { PassBound(free, num, w2, e0, end, if a <= e0 then e0 else a); }
  }

  lemma {:induction false} PassOne(free: int -> bool, w: Walk, lo: int, hi: int)
    requires match w case Found(s) => free(s) case Going(count, _) => count == 0
    ensures match Pass(free, 1, w, lo, hi) case Found(s) => free(s) case Going(count, _) => count == 0
    decreases hi - lo
  {
    if lo < hi { PassOne(free, Test(free, 1, w, lo), lo + 1, hi); }
  }

  /** A single page that is found is free, whatever the ends of the search. */
  lemma SinglePageFree(free: int -> bool, start: nat, end: nat)
    ensures FindWalk(free, 1, start, end).Found? ==> free(FindWalk(free, 1, start, end).page)
  {
    var w0, a := Going(0, 1), FirstWord(start) * BITS;
    PassOne(free, w0, start, a);
    var w1 := if start % BITS == 0 then w0 else Pass(free, 1, w0, start, a);
    PassOne(free, w1, a, LastWord(end) * BITS);
    PassOne(free, Pass(free, 1, w1, a, LastWord(end) * BITS), end / BITS * BITS, end);
  }

  /** Two pages are another matter: the run count survives the skipped word, so the second page reported
      here, page 192, is not free. */
  lemma CountCarriedOver()
    ensures var free := q => q == 191 || q == 224;
            FindWalk(free, 2, 144, 225) == Found(191) && !free(192)
  {
    var free := q => q == 191 || q == 224;
    var w0 := Going(0, 1);
    PassUsed(free, 2, w0, 144, 160);
    PassSplit(free, 2, w0, 160, 191, 192);
    PassUsed(free, 2, w0, 160, 191);
    assert Test(free, 2, w0, 191) == Going(1, 191);
    assert Pass(free, 2, w0, 191, 192) == Going(1, 191);
    assert Pass(free, 2, Going(1, 191), 224, 225) == Found(191);
  }
}
