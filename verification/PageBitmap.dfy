/** kernel/mm/mm.c: the physical page allocator, a bitmap with one bit per page, set when free. */
module PageBitmap {
  import opened Common
  import opened RunScan
  import opened FindPages

  const WORDS := 0x8000              // MMAP_SIZE, enough for every page of the address space
  const NO_PAGE: nat := 1
  const DMA_END: nat := 0x90000      // allocations come from above the DMA area

  // ---------- bits ----------

  function Place(n: nat): bv5
    requires n < BITS
  {
    n as bv5
  }

  function PlaceNumber(b: bv5): int { b as int }

  lemma PlaceIs(n: nat)
    requires n < BITS
    ensures PlaceNumber(Place(n)) == n
  {
  }

  function Shifted(b: bv5): bv32 { (1 as bv32) << b }

  function Mask(n: nat): bv32
    requires n < BITS
  {
    Shifted(Place(n))
  }

  predicate BitSet(w: bv32, n: nat)
    requires n < BITS
  {
    w & Mask(n) != 0
  }

  lemma ShiftedApart(a: bv5, b: bv5)
    requires a != b
    ensures Shifted(a) & Shifted(b) == 0
  {
  }

  lemma MasksApart(n: nat, m: nat)
    requires n < BITS && m < BITS && n != m
    ensures Mask(n) & Mask(m) == 0
  {
    PlaceIs(n);
    PlaceIs(m);
    ShiftedApart(Place(n), Place(m));
  }

  lemma OtherBits(w: bv32, a: bv32, b: bv32)
    requires a & b == 0
    ensures (w | a) & b == w & b
    ensures (w & !a) & b == w & b
  {
  }

  lemma ShiftedSame(w: bv32, b: bv5)
    ensures (w | Shifted(b)) & Shifted(b) != 0
    ensures (w & !Shifted(b)) & Shifted(b) == 0
  {
  }

  lemma SetSame(w: bv32, n: nat)
    requires n < BITS
    ensures BitSet(w | Mask(n), n)
  {
    ShiftedSame(w, Place(n));
  }

  lemma ClearSame(w: bv32, n: nat)
    requires n < BITS
    ensures !BitSet(w & !Mask(n), n)
  {
    ShiftedSame(w, Place(n));
  }

  lemma SetOther(w: bv32, n: nat, m: nat)
    requires n < BITS && m < BITS && n != m
    ensures BitSet(w | Mask(n), m) <==> BitSet(w, m)
  {
    assert (w | Mask(n)) & Mask(m) == w & Mask(m) by { MasksApart(n, m); OtherBits(w, Mask(n), Mask(m)); }
  }

  lemma ClearOther(w: bv32, n: nat, m: nat)
    requires n < BITS && m < BITS && n != m
    ensures BitSet(w & !Mask(n), m) <==> BitSet(w, m)
  {
    assert (w & !Mask(n)) & Mask(m) == w & Mask(m) by { MasksApart(n, m); OtherBits(w, Mask(n), Mask(m)); }
  }

  lemma NoBits(w: bv32, n: nat)
    requires w == 0 && n < BITS
    ensures !BitSet(w, n)
  {
  }

  // ---------- the bitmap as a set of free pages ----------

  type Words = s: seq<bv32> | |s| == WORDS witness seq(WORDS, _ => 0)

  predicate FreeBit(m: Words, p: int) {
    0 <= p < PAGES && BitSet(m[p / BITS], p % BITS)
  }

  function FreeOf(m: Words): int -> bool {
    p => FreeBit(m, p)
  }

  /** `f` tells the free pages of `m`. */
  ghost predicate Reads(f: int -> bool, m: Words) {
    forall p :: ReadsAt(f, m, p)
  }

  ghost predicate ReadsAt(f: int -> bool, m: Words, p: int) {
    f(p) <==> FreeBit(m, p)
  }

  /** The free pages below `n`. */
  ghost function FreeBelow(m: Words, n: int): set<int> {
    set p | 0 <= p < n && FreeBit(m, p)
  }

  ghost function FreeSet(m: Words): set<int> {
    FreeBelow(m, PAGES)
  }

  /** `w'` is word `w` with bit `n` as given. */
  ghost predicate WithBit(w: bv32, w': bv32, n: nat, value: bool) {
    forall k: nat | k < BITS :: BitSet(w', k) <==> if k == n then value else BitSet(w, k)
  }

  method SetBit(w: bv32, n: nat) returns (w': bv32)
    requires n < BITS
    ensures WithBit(w, w', n, true)
  {
    w' := w | Mask(n);
    forall k: nat | k < BITS ensures BitSet(w', k) <==> k == n || BitSet(w, k) {
      if k == n { SetSame(w, n); } else { SetOther(w, n, k); }
    }
  }

  method ClearBit(w: bv32, n: nat) returns (w': bv32)
    requires n < BITS
    ensures WithBit(w, w', n, false)
  {
    w' := w & !Mask(n);
    forall k: nat | k < BITS ensures BitSet(w', k) <==> k != n && BitSet(w, k) {
      if k == n { ClearSame(w, n); } else { ClearOther(w, n, k); }
    }
  }

  /** Changing the bit of a page changes that page and no other. */
  lemma BitWritten(m: Words, p: int, w: bv32, value: bool, q: int)
    requires 0 <= p < PAGES && WithBit(m[p / BITS], w, p % BITS, value)
    ensures FreeBit(m[p / BITS := w], q) <==> if q == p then value else FreeBit(m, q)
  {
    SamePage(p, q);
  }

  lemma SamePage(p: int, q: int)
    ensures p == q <==> p / BITS == q / BITS && p % BITS == q % BITS
  {
  }

  lemma ZeroWord(m: Words, i: nat)
    requires i < WORDS && m[i] == 0
    ensures forall q | i * BITS <= q < i * BITS + BITS :: !FreeOf(m)(q)
  {
    forall q | i * BITS <= q < i * BITS + BITS ensures !FreeOf(m)(q) { NoBits(m[i], q % BITS); }
  }

  lemma WordBit(i: nat, j: nat)
    requires j < BITS
    ensures (i * BITS + j) / BITS == i && (i * BITS + j) % BITS == j
  {
  }

  // ---------- ranges, around the end of the address space ----------

  /** Page `q` is one of the `num` pages from page `p` on. */
  predicate Covered(p: Page, num: nat, q: int) {
    0 <= q < PAGES && Ahead(p, q) < num
  }

  lemma CoveredNext(p: Page, i: nat, q: int)
    ensures Covered(p, i + 1, q) <==> Covered(p, i, q) || q == Plus(p, i)
  {
    assert i >= PAGES || i % PAGES == i;
  }

  lemma CoveredPlain(p: Page, num: nat)
    requires p + num <= PAGES
    ensures forall q :: Covered(p, num, q) <==> p <= q < p + num
  {
  }

  lemma CoveredMore(p: Page, i: nat, num: nat, q: int)
    requires i <= num && Covered(p, i, q)
    ensures Covered(p, num, q)
  {
  }

  // ---------- counting ----------

  lemma FreeBelowStep(m: Words, n: int)
    requires 0 <= n < PAGES
    ensures FreeBelow(m, n + 1) == if FreeBit(m, n) then FreeBelow(m, n) + {n} else FreeBelow(m, n)
  {
  }

  lemma CountBit(m: Words, i: nat, j: nat)
    requires i < WORDS && j < BITS
    ensures |FreeBelow(m, i * BITS + j + 1)| == |FreeBelow(m, i * BITS + j)| + if BitSet(m[i], j) then 1 else 0
  {
    WordBit(i, j);
    FreeBelowStep(m, i * BITS + j);
  }

  /** The free pages from `lo` up to `hi`. */
  ghost function FreeIn(m: Words, lo: int, hi: int): set<int> {
    set p | p in FreeSet(m) && lo <= p < hi
  }

  lemma {:induction false} FreeInSize(m: Words, lo: int, hi: int)
    requires lo <= hi && forall p | lo <= p < hi :: FreeBit(m, p)
    ensures |FreeIn(m, lo, hi)| == hi - lo
    decreases hi - lo
  {
    var all := FreeIn(m, lo, hi);
    if lo < hi {
      var last := hi - 1;
      FreeInSize(m, lo, last);
      assert FreeBit(m, last);
      assert all == FreeIn(m, lo, last) + {last};
    } else {
      assert all == {};
    }
  }

  /** Taking `num` free pages lowers the number of free pages by `num`. */
  lemma CountTaken(m: Words, m': Words, lo: int, num: nat)
    requires forall p | lo <= p < lo + num :: FreeBit(m, p)
    requires forall p :: FreeBit(m', p) <==> !(lo <= p < lo + num) && FreeBit(m, p)
    ensures |FreeSet(m')| == |FreeSet(m)| - num
  {
    FreeInSize(m, lo, lo + num);
    assert FreeSet(m) == FreeSet(m') + FreeIn(m, lo, lo + num);
  }

  /** Giving back `num` used pages raises it by `num`. */
  lemma CountGiven(m: Words, m': Words, lo: int, num: nat)
    requires forall p | lo <= p < lo + num :: !FreeBit(m, p) && 0 <= p < PAGES
    requires forall p :: FreeBit(m', p) <==> lo <= p < lo + num || FreeBit(m, p)
    ensures |FreeSet(m')| == |FreeSet(m)| + num
  {
    CountTaken(m', m, lo, num);
  }

  /** The same for a range around the end of the address space, which has each page once. */
  lemma CountCovered(m: Words, m': Words, p: Page, num: nat)
    requires forall q | Covered(p, num, q) :: FreeBit(m, q)
    requires forall q :: FreeBit(m', q) <==> !Covered(p, num, q) && FreeBit(m, q)
    ensures |FreeSet(m')| == |FreeSet(m)| - if num < PAGES then num else PAGES
  {
    if p + num <= PAGES {
      CoveredPlain(p, num);
      CountTaken(m, m', p, num);
    } else {
      var end := if num < PAGES then p + num - PAGES else p;
      forall q ensures Covered(p, num, q) <==> p <= q < PAGES || 0 <= q < end { }
      FreeInSize(m, p, PAGES);
      FreeInSize(m, 0, end);
      var high, low := FreeIn(m, p, PAGES), FreeIn(m, 0, end);
      assert FreeSet(m) == FreeSet(m') + (high + low);
      assert high !! low && FreeSet(m') !! (high + low);
    }
  }

  class Bitmap {
    const mmap: array<bv32>
    var memEnd: nat                   // address behind the last usable byte
    ghost var live: map<nat, nat>     // allocated ranges: first page and number of pages

    ghost function Words(): Words
      requires mmap.Length == WORDS
      reads mmap
    {
      mmap[..]
    }

    /** Allocated ranges are not empty, lie apart, and hold no free page. */
    ghost predicate Valid()
      reads this, mmap
    {
      && mmap.Length == WORDS
      && memEnd < PAGES * PAGE_SIZE
      && (forall a | a in live :: 0 < live[a] && a + live[a] <= PAGES)
      && (forall a, b | a in live && b in live && a < b :: a + live[a] <= b)
      && (forall a, p | a in live && a <= p < a + live[a] :: !FreeBit(Words(), p))
    }

    /** mark_free */
    method MarkFree(p: nat)
      requires mmap.Length == WORDS && p < PAGES
      modifies mmap
      ensures forall q :: FreeBit(Words(), q) <==> q == p || old(FreeBit(Words(), q))
    {
      ghost var m := Words();
      var w := SetBit(mmap[p / BITS], p % BITS);
      mmap[p / BITS] := w;
      assert Words() == m[p / BITS := w];
      forall q ensures FreeBit(Words(), q) <==> q == p || FreeBit(m, q) { BitWritten(m, p, w, true, q); }
    }

    /** mark_used */
    method MarkUsed(p: nat)
      requires mmap.Length == WORDS && p < PAGES
      modifies mmap
      ensures forall q :: FreeBit(Words(), q) <==> q != p && old(FreeBit(Words(), q))
    {
      ghost var m := Words();
      var w := ClearBit(mmap[p / BITS], p % BITS);
      mmap[p / BITS] := w;
      assert Words() == m[p / BITS := w];
      forall q ensures FreeBit(Words(), q) <==> q != p && FreeBit(m, q) { BitWritten(m, p, w, false, q); }
    }

    /** mark_range_free */
    method MarkRangeFree(p: nat, num: nat)
      requires mmap.Length == WORDS && p < PAGES
      modifies mmap
      ensures forall q :: FreeBit(Words(), q) <==> Covered(p, num, q) || old(FreeBit(Words(), q))
    {
      ghost var m := Words();
      var i := 0;
      while i < num
        invariant 0 <= i <= num
        invariant forall q :: FreeBit(Words(), q) <==> Covered(p, i, q) || FreeBit(m, q)
      {
        forall q ensures Covered(p, i + 1, q) <==> Covered(p, i, q) || q == Plus(p, i) { CoveredNext(p, i, q); }
        MarkFree(Plus(p, i));
        i := i + 1;
      }
    }

    /** mark_range_used */
    method MarkRangeUsed(p: nat, num: nat)
      requires mmap.Length == WORDS && p < PAGES
      modifies mmap
      ensures forall q :: FreeBit(Words(), q) <==> !Covered(p, num, q) && old(FreeBit(Words(), q))
    {
      ghost var m := Words();
      var i := 0;
      while i < num
        invariant 0 <= i <= num
        invariant forall q :: FreeBit(Words(), q) <==> !Covered(p, i, q) && FreeBit(m, q)
      {
        forall q ensures Covered(p, i + 1, q) <==> Covered(p, i, q) || q == Plus(p, i) { CoveredNext(p, i, q); }
        MarkUsed(Plus(p, i));
        i := i + 1;
      }
    }

    /** is_free */
    method IsFree(p: nat) returns (b: bool)
      requires mmap.Length == WORDS && p < PAGES
      ensures b == FreeBit(Words(), p)
    {
      b := BitSet(mmap[p / BITS], p % BITS);
    }

    /** `test` on one bit: a run of free pages grows, ends or is long enough. */
    method TestBit(idx: nat, p: nat, num: nat, count0: nat, start0: int, ghost f: int -> bool)
      returns (found: bool, count: nat, start: int)
      requires mmap.Length == WORDS && idx < WORDS && p < BITS && Reads(f, Words())
      ensures Test(f, num, Going(count0, start0), idx * BITS + p) == if found then Found(start) else Going(count, start)
    {
      WordBit(idx, p);
      assert ReadsAt(f, Words(), idx * BITS + p);
      found, count, start := false, count0, start0;
      if BitSet(mmap[idx], p) {
        if count == 0 { start := idx * BITS + p; }
        count := count + 1;
        found := count >= num;
      } else {
        count := 0;
      }
    }

    /** `test` on the bits [pos, last) of word `idx`: the inner loops of `find`. */
    method TestBits(idx: nat, pos: nat, last: nat, num: nat, count0: nat, start0: int, ghost f: int -> bool)
      returns (found: bool, count: nat, start: int)
      requires mmap.Length == WORDS && idx < WORDS && pos <= last <= BITS && Reads(f, Words())
      ensures var w := Pass(f, num, Going(count0, start0), idx * BITS + pos, idx * BITS + last);
              w == if found then Found(start) else Going(count, start)
    {
      count, start := count0, start0;
      ghost var base := idx * BITS;
      ghost var goal := Pass(f, num, Going(count, start), base + pos, base + last);
      var p := pos;
      while p < last
        invariant pos <= p <= last
        invariant goal == Pass(f, num, Going(count, start), base + p, base + last)
      {
        found, count, start := TestBit(idx, p, num, count, start, f);
        p := p + 1;
        if found {
          PassFound(f, num, Found(start), base + p, base + last);
          return;
        }
      }
      found := false;
    }

    /** One word: skipped, with the run ended, if it has no free page. */
    method TestWord(i: nat, num: nat, count0: nat, start0: int, ghost f: int -> bool)
      returns (found: bool, count: nat, start: int)
      requires mmap.Length == WORDS && i < WORDS && f == FreeOf(Words()) && Reads(f, Words())
      ensures var w := Pass(f, num, Going(count0, start0), i * BITS, i * BITS + BITS);
              w == if found then Found(start) else Going(count, start)
    {
      if mmap[i] == 0 {
        ZeroWord(Words(), i);
        PassUsed(f, num, Going(count0, start0), i * BITS, i * BITS + BITS);
        return false, 0, start0;
      }
      found, count, start := TestBits(i, 0, BITS, num, count0, start0, f);
    }

    /** The loop of `find` over whole words. */
    method TestWords(first: nat, last: int, num: nat, count0: nat, start0: int)
      returns (found: bool, count: nat, start: int)
      requires mmap.Length == WORDS && last <= WORDS
      ensures var w := Pass(FreeOf(Words()), num, Going(count0, start0), first * BITS, last * BITS);
              w == if found then Found(start) else Going(count, start)
    {
      found, count, start := false, count0, start0;
      ghost var f := FreeOf(Words());
      assert Reads(f, Words());
      ghost var goal := Pass(f, num, Going(count, start), first * BITS, last * BITS);
      var i := first;
      while i < last
        invariant first <= i && (first <= last ==> i <= last)
        invariant goal == Pass(f, num, Going(count, start), i * BITS, last * BITS)
      {
        PassSplit(f, num, Going(count, start), i * BITS, i * BITS + BITS, last * BITS);
        found, count, start := TestWord(i, num, count, start, f);
        if found {
          PassFound(f, num, Found(start), i * BITS + BITS, last * BITS);
          return;
        }
        i := i + 1;
      }
    }

    /** The last loop of `find`: the bits before `end` in its word, unless the run is complete. */
    method TestRest(end: nat, num: nat, found0: bool, count0: nat, start0: int, ghost f: int -> bool)
      returns (found: bool, count: nat, start: int)
      requires mmap.Length == WORDS && end < PAGES && Reads(f, Words())
      ensures var w := Pass(f, num, if found0 then Found(start0) else Going(count0, start0), end / BITS * BITS, end);
              w == if found then Found(start) else Going(count, start)
    {
      if found0 {
        PassFound(f, num, Found(start0), end / BITS * BITS, end);
        return true, count0, start0;
      }
      found, count, start := TestBits(end / BITS, 0, end % BITS, num, count0, start0, f);
    }

    /** find: the address of `num` contiguous pages between pages `start` and `end`, or NO_PAGE. */
    method Find(num: nat, start: nat, end: nat) returns (r: int)
      requires mmap.Length == WORDS && start < PAGES && end < PAGES
      ensures var w := FindWalk(FreeOf(Words()), num, start, end);
              r == if w.Found? then w.page * PAGE_SIZE else NO_PAGE
    {
      ghost var f := FreeOf(Words());
      assert Reads(f, Words());
      var first, last, found, count, result := start / BITS, LastWord(end), false, 0, 1;
      if start % BITS != 0 {
        found, count, result := TestBits(first, start % BITS, BITS, num, count, result, f);
        first := first + 1;
      }
      ghost var w1 := if found then Found(result) else Going(count, result);
      assert first == FirstWord(start);
      if !found {
        found, count, result := TestWords(first, last, num, count, result);
      } else {
        PassFound(f, num, w1, first * BITS, last * BITS);
      }
      ghost var w2 := if found then Found(result) else Going(count, result);
      assert w2 == Pass(f, num, w1, first * BITS, last * BITS);
      if end % BITS != 0 {
        found, count, result := TestRest(end, num, found, count, result, f);
      }
      r := if found then result * PAGE_SIZE else NO_PAGE;
    }

    /** The part of memory that allocations come from is searched without gaps. */
    ghost predicate Aligned()
      reads this
    {
      DMA_END <= memEnd && Contiguous(DMA_END / PAGE_SIZE, memEnd / PAGE_SIZE)
    }

    /** Page `p` is where the first run of `num` free pages, in the order looked at, begins. */
    ghost predicate Placed(free: int -> bool, num: nat, p: int)
      reads this
    {
      var lo, hi := DMA_END / PAGE_SIZE, memEnd / PAGE_SIZE;
      exists s: nat | s < SeenPages(lo, hi) :: FoundAt(free, num, lo, hi, s, p)
    }

    /** That run is a run of pages, too: it does not cross the gap. */
    ghost predicate Whole(free: int -> bool, num: nat, p: int)
      reads this
    {
      var lo, hi := DMA_END / PAGE_SIZE, memEnd / PAGE_SIZE;
      exists s: nat | s < SeenPages(lo, hi) :: FoundAt(free, num, lo, hi, s, p) && InOnePart(num, lo, hi, s)
    }

    /** What taking the pages [p, p + num) does. */
    twostate predicate Took(p: int, num: nat)
      requires mmap.Length == WORDS
      reads this, mmap
    {
      && memEnd == old(memEnd)
      && (forall q :: FreeBit(Words(), q) <==> !(p <= q < p + num) && FreeBit(old(Words()), q))
    }

    /** mm_alloc_page: the page handed out is the first free one of those looked at, is not free any more, and nothing
        else changes; none exactly if none of them is free. Where memory is searched without gaps, it is the lowest. */
    method AllocPage() returns (r: int)
      requires Valid()
      modifies mmap, this`live
      ensures Valid()
      ensures r == NO_PAGE ==> Words() == old(Words()) && live == old(live)
      ensures r == NO_PAGE && Aligned() ==> NoFit(FreeOf(Words()), DMA_END / PAGE_SIZE, memEnd / PAGE_SIZE, 1)
      ensures r == NO_PAGE <==> !exists q :: Looked(DMA_END / PAGE_SIZE, memEnd / PAGE_SIZE, q) && old(FreeBit(Words(), q))
      ensures r == NO_PAGE || Placed(old(FreeOf(Words())), 1, r / PAGE_SIZE)
      ensures r != NO_PAGE ==>
                var p := r / PAGE_SIZE;
                && r % PAGE_SIZE == 0 && old(FreeBit(Words(), p)) && Took(p, 1)
                && (Aligned() ==> FirstFit(old(FreeOf(Words())), DMA_END / PAGE_SIZE, memEnd / PAGE_SIZE, 1, p))
                && live == old(live)[p := 1] && p !in old(live)
                && |FreeSet(Words())| == |old(FreeSet(Words()))| - 1
    {
      ghost var m := Words();
      r := FindPage();
      if r == NO_PAGE { return; }
      var p := r / PAGE_SIZE;
      MarkUsed(p);
      live := live[p := 1];
      CountTaken(m, Words(), p, 1);
    }

    /** Its search. */
    method FindPage() returns (r: int)
      requires Valid()
      ensures r == NO_PAGE && Aligned() ==> NoFit(FreeOf(Words()), DMA_END / PAGE_SIZE, memEnd / PAGE_SIZE, 1)
      ensures r == NO_PAGE <==> !exists q :: Looked(DMA_END / PAGE_SIZE, memEnd / PAGE_SIZE, q) && FreeBit(Words(), q)
      ensures r != NO_PAGE ==>
                var p := r / PAGE_SIZE;
                && r % PAGE_SIZE == 0 && FreeBit(Words(), p) && Placed(FreeOf(Words()), 1, p)
                && (Aligned() ==> FirstFit(FreeOf(Words()), DMA_END / PAGE_SIZE, memEnd / PAGE_SIZE, 1, p))
    {
      ghost var f := FreeOf(Words());
      SinglePageFree(f, DMA_END / PAGE_SIZE, memEnd / PAGE_SIZE);
      SinglePageFound(f, DMA_END / PAGE_SIZE, memEnd / PAGE_SIZE);
      FindSees(f, 1, DMA_END / PAGE_SIZE, memEnd / PAGE_SIZE);
      if Aligned() { ContiguousCorrect(f, 1, DMA_END / PAGE_SIZE, memEnd / PAGE_SIZE); }
      r := Find(1, DMA_END / PAGE_SIZE, memEnd / PAGE_SIZE);
    }

    /** mm_alloc_range: the first run of free pages in the order looked at, which becomes live if it does not cross the
        gap; none exactly if there is no such run. If memory is searched without gaps, it is the lowest. Of a run across
        the gap all that is sure is which bits are cleared. */
    method AllocRange(num: nat) returns (r: int)
      requires Valid()
      modifies mmap, this`live
      ensures mmap.Length == WORDS && (Aligned() ==> Valid())
      ensures num == 0 ==> r == NO_PAGE
      ensures r == NO_PAGE ==> Words() == old(Words()) && live == old(live)
      ensures num > 0 ==> (r == NO_PAGE <==> NothingPlaced(old(FreeOf(Words())), num))
      ensures r == NO_PAGE && num > 0 && Aligned() ==> NoFit(FreeOf(Words()), DMA_END / PAGE_SIZE, memEnd / PAGE_SIZE, num)
      ensures r != NO_PAGE ==> r % PAGE_SIZE == 0 && Took(r / PAGE_SIZE, num) && Placed(old(FreeOf(Words())), num, r / PAGE_SIZE)
      ensures r != NO_PAGE && Aligned() ==>
                FirstFit(old(FreeOf(Words())), DMA_END / PAGE_SIZE, memEnd / PAGE_SIZE, num, r / PAGE_SIZE)
      ensures r != NO_PAGE && (Aligned() || Whole(old(FreeOf(Words())), num, r / PAGE_SIZE)) ==>
                var p := r / PAGE_SIZE;
                && Valid() && (forall q | p <= q < p + num :: old(FreeBit(Words(), q)))
                && live == old(live)[p := num] && p !in old(live)
                && |FreeSet(Words())| == |old(FreeSet(Words()))| - num
    {
      if num == 0 { return NO_PAGE; }
      ghost var m := Words();
      r := FindRun(num);
      if r == NO_PAGE { return; }
      var p := r / PAGE_SIZE;
      Take(p, num, Aligned() || Whole(FreeOf(m), num, p));
    }

    ghost predicate NothingPlaced(free: int -> bool, num: nat)
      reads this
    {
      var lo, hi := DMA_END / PAGE_SIZE, memEnd / PAGE_SIZE;
      NoFit(Seen(free, lo, hi), 0, SeenPages(lo, hi), num)
    }

    /** Its search. */
    method FindRun(num: nat) returns (r: int)
      requires Valid() && num > 0
      ensures r == NO_PAGE <==> NothingPlaced(FreeOf(Words()), num)
      ensures r == NO_PAGE && Aligned() ==> NoFit(FreeOf(Words()), DMA_END / PAGE_SIZE, memEnd / PAGE_SIZE, num)
      ensures r != NO_PAGE ==>
                var p := r / PAGE_SIZE;
                && r % PAGE_SIZE == 0 && 0 <= p && p + num <= PAGES && Placed(FreeOf(Words()), num, p)
                && (Aligned() ==> FirstFit(FreeOf(Words()), DMA_END / PAGE_SIZE, memEnd / PAGE_SIZE, num, p))
                && (Aligned() || Whole(FreeOf(Words()), num, p) ==> forall q | p <= q < p + num :: FreeBit(Words(), q))
    {
      ghost var f, lo, hi := FreeOf(Words()), DMA_END / PAGE_SIZE, memEnd / PAGE_SIZE;
      FoundBounded(f, num, lo, hi);
      if Aligned() { ContiguousCorrect(f, num, lo, hi); }
      FindSees(f, num, lo, hi);
      r := Find(num, DMA_END / PAGE_SIZE, memEnd / PAGE_SIZE);
      if r != NO_PAGE { RunIsFree(Words(), num, r / PAGE_SIZE); }
    }

    lemma RunIsFree(m: Words, num: nat, p: int)
      requires num > 0 && Placed(FreeOf(m), num, p)
      requires Aligned() ==> FirstFit(FreeOf(m), DMA_END / PAGE_SIZE, memEnd / PAGE_SIZE, num, p)
      ensures !NothingPlaced(FreeOf(m), num)
      ensures Aligned() || Whole(FreeOf(m), num, p) ==> forall q | p <= q < p + num :: FreeBit(m, q)
    {
      var lo, hi := DMA_END / PAGE_SIZE, memEnd / PAGE_SIZE;
      var s: nat :| s < SeenPages(lo, hi) && FoundAt(FreeOf(m), num, lo, hi, s, p);
      assert Fits(Seen(FreeOf(m), lo, hi), num, s);
      if Aligned() {
        FitIsFree(m, lo, hi, num, p);
      } else if Whole(FreeOf(m), num, p) {
        var t: nat :| t < SeenPages(lo, hi) && FoundAt(FreeOf(m), num, lo, hi, t, p) && InOnePart(num, lo, hi, t);
        FoundIsFree(FreeOf(m), num, lo, hi, t, p);
        forall q | p <= q < p + num ensures FreeBit(m, q) { assert FreeOf(m)(q); }
      }
    }

    /** Mark pages as used; if they are known to be free, the range becomes live. */
    method Take(p: nat, num: nat, ghost known: bool)
      requires Valid() && num > 0 && p + num <= PAGES && (known ==> forall q | p <= q < p + num :: FreeBit(Words(), q))
      modifies mmap, this`live
      ensures mmap.Length == WORDS && Took(p, num)
      ensures known ==> Valid() && live == old(live)[p := num] && p !in old(live)
      ensures known ==> |FreeSet(Words())| == |old(FreeSet(Words()))| - num
    {
      ghost var m := Words();
      CoveredPlain(p, num);
      MarkRangeUsed(p, num);
      if known {
        CountTaken(m, Words(), p, num);
        RangesApart(m, live, p, num);
        live := live[p := num];
      }
    }

    /** mm_free_range, mm_free_phys_range and, for one page, mm_free_page. Giving back a live range ends it. */
    method FreeRange(start: nat, num: nat)
      requires Valid() && start < PAGES * PAGE_SIZE
      modifies mmap, this`live
      ensures mmap.Length == WORDS && memEnd == old(memEnd)
      ensures var p := start / PAGE_SIZE;
              if start == NO_PAGE || start % PAGE_SIZE != 0 || num == 0
              then Valid() && Words() == old(Words()) && live == old(live)
              else
                && (forall q :: FreeBit(Words(), q) <==> Covered(p, num, q) || old(FreeBit(Words(), q)))
                && (p in old(live) && old(live)[p] == num ==>
                      && Valid() && live == old(live) - {p}
                      && |FreeSet(Words())| == |old(FreeSet(Words()))| + num)
    {
      if start == NO_PAGE || start % PAGE_SIZE != 0 || num == 0 { return; }
      GiveBack(start / PAGE_SIZE, num);
    }

    method GiveBack(p: nat, num: nat)
      requires Valid() && num > 0 && p < PAGES
      modifies mmap, this`live
      ensures mmap.Length == WORDS
      ensures forall q :: FreeBit(Words(), q) <==> Covered(p, num, q) || old(FreeBit(Words(), q))
      ensures p in old(live) && old(live)[p] == num ==>
                && Valid() && live == old(live) - {p}
                && |FreeSet(Words())| == |old(FreeSet(Words()))| + num
    {
      ghost var m := Words();
      MarkRangeFree(p, num);
      if p in live && live[p] == num {
        CoveredPlain(p, num);
        CountGiven(m, Words(), p, num);
        live := live - {p};
      }
    }

    /** The loop of mm_alloc_phys_range */
    method AllFree(p: nat, num: nat) returns (ok: bool)
      requires mmap.Length == WORDS && p < PAGES
      ensures ok <==> forall q | Covered(p, num, q) :: FreeBit(Words(), q)
    {
      ghost var m := Words();
      var i := 0;
      while i < num
        invariant 0 <= i <= num && Words() == m
        invariant forall q | Covered(p, i, q) :: FreeBit(m, q)
      {
        forall q ensures Covered(p, i + 1, q) <==> Covered(p, i, q) || q == Plus(p, i) { CoveredNext(p, i, q); }
        var free := IsFree(Plus(p, i));
        if !free {
          CoveredMore(p, i + 1, num, Plus(p, i));
          return false;
        }
        i := i + 1;
      }
      ok := true;
    }

    /** mm_alloc_phys_range: all of the range or nothing. A range around the end of the address space is taken
        but not entered among the live ones. */
    method AllocPhysRange(start: nat, num: nat) returns (ok: bool)
      requires Valid() && start < PAGES * PAGE_SIZE
      modifies mmap, this`live
      ensures Valid() && memEnd == old(memEnd)
      ensures var p := start / PAGE_SIZE;
              && (ok <==> start % PAGE_SIZE == 0 && num > 0 && forall q | Covered(p, num, q) :: old(FreeBit(Words(), q)))
              && (!ok ==> Words() == old(Words()) && live == old(live))
              && (ok ==> forall q :: FreeBit(Words(), q) <==> !Covered(p, num, q) && old(FreeBit(Words(), q)))
              && (ok ==> live == if p + num <= PAGES then old(live)[p := num] else old(live))
              && (ok ==> |FreeSet(Words())| == |old(FreeSet(Words()))| - if num < PAGES then num else PAGES)
    {
      if start % PAGE_SIZE != 0 || num == 0 { return false; }
      var p := start / PAGE_SIZE;
      ok := AllFree(p, num);
      if !ok { return; }
      ghost var m := Words();
      MarkRangeUsed(p, num);
      CountCovered(m, Words(), p, num);
      if p + num <= PAGES {
        CoveredPlain(p, num);
        RangesApart(m, live, p, num);
        live := live[p := num];
      }
    }

    /** mm_num_free_pages */
    method NumFreePages() returns (n: nat)
      requires mmap.Length == WORDS
      ensures n == |FreeSet(Words())|
    {
      n := 0;
      ghost var m := Words();
      var i := 0;
      assert FreeBelow(m, 0) == {};
      while i < WORDS
        invariant 0 <= i <= WORDS && n == |FreeBelow(m, i * BITS)|
      {
        n := CountWord(i, n);
        i := i + 1;
      }
    }

    /** The bits of one word, counted on top of those below. */
    method CountWord(i: nat, below: nat) returns (n: nat)
      requires mmap.Length == WORDS && i < WORDS && below == |FreeBelow(Words(), i * BITS)|
      ensures n == |FreeBelow(Words(), i * BITS + BITS)|
    {
      n := below;
      ghost var m, base := Words(), i * BITS;
      var j := 0;
      while j < BITS
        invariant 0 <= j <= BITS && n == |FreeBelow(m, base + j)|
      {
        CountBit(m, i, j);
        if BitSet(mmap[i], j) { n := n + 1; }
        j := j + 1;
      }
    }
  }

  /** A range of free pages lies apart from ranges of used ones. */
  lemma RangesApart(m: Words, live: map<nat, nat>, p: int, num: nat)
    requires num > 0 && forall a | a in live :: 0 < live[a]
    requires forall a, q | a in live && a <= q < a + live[a] :: !FreeBit(m, q)
    requires forall q | p <= q < p + num :: FreeBit(m, q)
    ensures forall a | a in live :: a + live[a] <= p || p + num <= a
  {
    forall a | a in live ensures a + live[a] <= p || p + num <= a {
      var q := if a < p then p else a;
      assert FreeBit(m, q) || q >= p + num;
    }
  }

  /** A first fit consists of free pages of the bitmap. */
  lemma FitIsFree(m: Words, lo: int, hi: int, num: nat, p: int)
    requires FirstFit(FreeOf(m), lo, hi, num, p)
    ensures forall q | p <= q < p + num :: FreeBit(m, q)
  {
    forall q | p <= q < p + num ensures FreeBit(m, q) { assert FreeOf(m)(q); }
  }
}
