/** lib/libc/functions/stdlib/qsort.c on sequences: what the in-place algorithm does to its array.
    With `fix` unset this is the code as written, whose left recursion always starts at the caller's
    `base`; with `fix` set, `base` moves along with the left end of the segment. */
module QsortModel {

  const T := 7   // up to this many elements are sorted by insertion

  type Cmp<!A> = (A, A) -> int

  /** A comparison function as the C standard asks for: a total preorder. */
  ghost predicate Preorder<A(!new)>(cmp: Cmp<A>) {
    && (forall x, y :: Opposite(cmp, x, y))
    && (forall x, y, z :: Chained(cmp, x, y, z))
  }

  predicate Opposite<A>(cmp: Cmp<A>, x: A, y: A) {
    cmp(x, y) > 0 <==> cmp(y, x) < 0
  }

  predicate Chained<A>(cmp: Cmp<A>, x: A, y: A, z: A) {
    cmp(x, y) <= 0 && cmp(y, z) <= 0 ==> cmp(x, z) <= 0
  }

  // ---------- building blocks ----------

  function Swap<A>(s: seq<A>, i: nat, j: nat): (r: seq<A>)
    requires i < |s| && j < |s|
    ensures |r| == |s|
  {
    s[i := s[j]][j := s[i]]
  }

  /** Put second and last, first and last, second and first in order, from the `k`-th of these on. */
  function Arrange<A>(s: seq<A>, cmp: Cmp<A>, lo: nat, hi: nat, k: nat): (r: seq<A>)
    requires lo + 1 < hi <= |s|
    ensures |r| == |s|
    decreases 3 - k, |s|
  {
    if k >= 3 then s
    else
      var i, j := if k == 1 then lo else lo + 1, if k == 2 then lo else hi - 1;
      Arrange(if cmp(s[i], s[j]) > 0 then Swap(s, i, j) else s, cmp, lo, hi, k + 1)
  }

  /** First swapped with middle, then first, second and last arranged so that the median comes first. */
  function Median<A>(s: seq<A>, cmp: Cmp<A>, lo: nat, hi: nat): (r: seq<A>)
    requires lo + 1 < hi <= |s|
    ensures |r| == |s|
  {
    Arrange(Swap(s, lo + (hi - lo) / 2, lo), cmp, lo, hi, 0)
  }

  /** Move right while the element is below the pivot at `lo`. */
  function ScanUp<A>(s: seq<A>, cmp: Cmp<A>, lo: nat, i: nat): (r: nat)
    requires lo < |s|
    ensures i <= r
    decreases |s| - i
  {
    if i < |s| && cmp(s[i], s[lo]) < 0 then ScanUp(s, cmp, lo, i + 1) else i
  }

  lemma {:induction false} ScanUpStops<A>(s: seq<A>, cmp: Cmp<A>, lo: nat, i: nat)
    requires lo < |s|
    ensures var r := ScanUp(s, cmp, lo, i);
            && (r < |s| ==> cmp(s[r], s[lo]) >= 0)
            && forall k | i <= k < r && k < |s| :: cmp(s[k], s[lo]) < 0
    decreases |s| - i
  {
    if i < |s| && cmp(s[i], s[lo]) < 0 { ScanUpStops(s, cmp, lo, i + 1); }
  }

  /** Move left while the element is above the pivot at `lo`. */
  function ScanDown<A>(s: seq<A>, cmp: Cmp<A>, lo: nat, j: int): (r: int)
    requires lo < |s| && j < |s|
    ensures r <= j
    decreases j
  {
    if 0 <= j && cmp(s[j], s[lo]) > 0 then ScanDown(s, cmp, lo, j - 1) else j
  }

  lemma {:induction false} ScanDownStops<A>(s: seq<A>, cmp: Cmp<A>, lo: nat, j: int)
    requires lo < |s| && j < |s|
    ensures var r := ScanDown(s, cmp, lo, j);
            && (0 <= r ==> cmp(s[r], s[lo]) <= 0)
            && forall k | r < k <= j && 0 <= k :: cmp(s[k], s[lo]) > 0
    decreases j
  {
    if 0 <= j && cmp(s[j], s[lo]) > 0 { ScanDownStops(s, cmp, lo, j - 1); }
  }

  /** Between the scans: elements up to `i` are not above the pivot, elements from `j` on not below. */
  ghost predicate Split<A>(s: seq<A>, cmp: Cmp<A>, lo: nat, hi: nat, i: nat, j: nat) {
    && hi <= |s| && lo < i <= j < hi && (i < j || (lo + 1 < i && j + 1 < hi))
    && (forall k | lo < k <= i :: cmp(s[k], s[lo]) <= 0)
    && (forall k | j <= k < hi :: cmp(s[k], s[lo]) >= 0)
  }

  datatype Parts<A> = Parts(s: seq<A>, i: nat, j: int)

  /** What the partition loop leaves: nothing above the pivot before `i`, nothing below it after `j`. */
  ghost predicate Parted<A>(r: Parts<A>, cmp: Cmp<A>, lo: nat, hi: nat) {
    && hi <= |r.s| && lo < r.j < r.i < hi
    && (forall k | lo < k < r.i :: cmp(r.s[k], r.s[lo]) <= 0)
    && (forall k | r.j < k < hi :: cmp(r.s[k], r.s[lo]) >= 0)
  }

  lemma ScansStop<A>(s: seq<A>, cmp: Cmp<A>, lo: nat, hi: nat, i: nat, j: nat)
    requires Split(s, cmp, lo, hi, i, j)
    ensures var i1, j1 := ScanUp(s, cmp, lo, i + 1), ScanDown(s, cmp, lo, j - 1);
            && i < i1 < hi && lo < j1 < j
            && (i1 <= j1 ==> Split(Swap(s, i1, j1), cmp, lo, hi, i1, j1))
            && (i1 > j1 ==> Parted(Parts(s, i1, j1), cmp, lo, hi))
  {
    var i1, j1 := ScanUp(s, cmp, lo, i + 1), ScanDown(s, cmp, lo, j - 1);
    ScanUpStops(s, cmp, lo, i + 1);
    ScanDownStops(s, cmp, lo, j - 1);
    var up, down := if i < j then j else j + 1, if i < j then i else i - 1;
    assert cmp(s[up], s[lo]) >= 0 && cmp(s[down], s[lo]) <= 0;
    assert i1 <= up && down <= j1;
  }

  /** The partition loop: swap the elements where the scans stop until they have crossed. */
  function PartLoop<A>(s: seq<A>, cmp: Cmp<A>, lo: nat, i: nat, j: nat): (r: Parts<A>)
    requires lo < i <= j < |s|
    ensures |r.s| == |s|
    decreases j - i
  {
    var i1, j1 := ScanUp(s, cmp, lo, i + 1), ScanDown(s, cmp, lo, j - 1);
    if i1 > j1 then Parts(s, i1, j1) else PartLoop(Swap(s, i1, j1), cmp, lo, i1, j1)
  }

  /** The sentinels that the median step left stop both scans inside the segment. */
  lemma {:induction false} PartLoopParts<A>(s: seq<A>, cmp: Cmp<A>, lo: nat, hi: nat, i: nat, j: nat)
    requires Split(s, cmp, lo, hi, i, j)
    ensures Parted(PartLoop(s, cmp, lo, i, j), cmp, lo, hi)
    decreases j - i
  {
    ScansStop(s, cmp, lo, hi, i, j);
    var i1, j1 := ScanUp(s, cmp, lo, i + 1), ScanDown(s, cmp, lo, j - 1);
    if i1 <= j1 { PartLoopParts(Swap(s, i1, j1), cmp, lo, hi, i1, j1); }
  }

  lemma MedianSplits<A(!new)>(s: seq<A>, cmp: Cmp<A>, lo: nat, hi: nat)
    requires Preorder(cmp) && lo + T < hi <= |s|
    ensures Split(Median(s, cmp, lo, hi), cmp, lo, hi, lo + 1, hi - 1)
  {
    var s1 := Swap(s, lo + (hi - lo) / 2, lo);
    var s2 := Ordered(s1, cmp, lo, hi, 0, lo + 1, hi - 1);
    var s3 := Ordered(s2, cmp, lo, hi, 1, lo, hi - 1);
    var s4 := Ordered(s3, cmp, lo, hi, 2, lo + 1, lo);
    assert Opposite(cmp, s3[lo + 1], s3[hi - 1]) && Opposite(cmp, s3[lo], s3[hi - 1]);
  }

  /** One step of arranging puts its two positions in order and touches no other. */
  lemma Ordered<A(!new)>(s: seq<A>, cmp: Cmp<A>, lo: nat, hi: nat, k: nat, i: nat, j: nat) returns (t: seq<A>)
    requires Preorder(cmp) && lo + 1 < hi <= |s| && k < 3
    requires i == (if k == 1 then lo else lo + 1) && j == (if k == 2 then lo else hi - 1)
    ensures |t| == |s| && (t == s || t == Swap(s, i, j))
    ensures cmp(t[i], t[j]) <= 0 && cmp(t[j], t[i]) >= 0
    ensures Arrange(s, cmp, lo, hi, k) == Arrange(t, cmp, lo, hi, k + 1)
  {
    t := if cmp(s[i], s[j]) > 0 then Swap(s, i, j) else s;
    assert Opposite(cmp, s[i], s[j]) && Opposite(cmp, s[j], s[i]);
  }

  /** Median, partition loop, and the pivot moved to its place. */
  function Partition<A(!new)>(s: seq<A>, cmp: Cmp<A>, lo: nat, hi: nat): (r: Parts<A>)
    requires Preorder(cmp) && lo + T < hi <= |s|
    ensures |r.s| == |s| && lo < r.j < r.i < hi
  {
    MedianSplits(s, cmp, lo, hi);
    PartLoopParts(Median(s, cmp, lo, hi), cmp, lo, hi, lo + 1, hi - 1);
    var p := PartLoop(Median(s, cmp, lo, hi), cmp, lo, lo + 1, hi - 1);
    p.(s := Swap(p.s, lo, p.j))
  }

  /** The inner insertion loop: the element behind `j` sinks to its place. */
  function Sink<A>(s: seq<A>, cmp: Cmp<A>, lo: nat, j: nat): (r: seq<A>)
    requires lo <= j && j + 1 < |s|
    ensures |r| == |s|
    decreases j
  {
    if cmp(s[j], s[j + 1]) <= 0 then s
    else if j == lo then Swap(s, j, j + 1)
    else Sink(Swap(s, j, j + 1), cmp, lo, j - 1)
  }

  function Insertion<A>(s: seq<A>, cmp: Cmp<A>, lo: nat, i: nat, hi: nat): (r: seq<A>)
    requires lo < i && hi <= |s|
    ensures |r| == |s|
    decreases hi - i
  {
    if i >= hi then s else Insertion(Sink(s, cmp, lo, i - 1), cmp, lo, i + 1, hi)
  }

  // ---------- the main loop ----------

  /** The two ways the loop treats a segment: partition a long one, sort a short one by insertion. */
  datatype Steps<!A> = Steps(part: (seq<A>, nat, nat) -> Parts<A>, insert: (seq<A>, nat, nat) -> seq<A>)

  function QuickSteps<A(!new)>(cmp: Cmp<A>): (r: Steps<A>)
    requires Preorder(cmp)
    ensures Sound(r)
  {
    Steps((s: seq<A>, lo: nat, hi: nat) => if lo + T < hi <= |s| then Partition(s, cmp, lo, hi) else Parts(s, lo, lo),
          (s: seq<A>, lo: nat, hi: nat) => if hi <= |s| then Insertion(s, cmp, lo, lo + 1, hi) else s)
  }

  ghost predicate Sound<A(!new)>(steps: Steps<A>) {
    && (forall s, lo: nat, hi: nat | lo + T < hi <= |s| :: Cuts(steps, s, lo, hi))
    && (forall s, lo: nat, hi: nat | lo <= hi <= |s| :: |steps.insert(s, lo, hi)| == |s|)
  }

  ghost predicate Cuts<A>(steps: Steps<A>, s: seq<A>, lo: nat, hi: nat) {
    var p := steps.part(s, lo, hi);
    |p.s| == |s| && lo < p.j < p.i < hi
  }

  /** The main loop of qsort, called with `base`, on the segment from `lo` up to `hi`. A call of qsort
      on `n` elements from `base` on runs it on the whole range: from `base` up to `base + n`. */
  function Loop<A(!new)>(steps: Steps<A>, s: seq<A>, base: nat, lo: nat, hi: nat, fix: bool): (r: seq<A>)
    requires Sound(steps) && base <= lo <= hi <= |s|
    ensures |r| == |s|
    decreases hi - lo
  {
    if hi - lo > T then
      var p := steps.part(s, lo, hi);
      assert Cuts(steps, s, lo, hi);
      if p.j - lo > hi - p.i then
        Loop(steps, Loop(steps, p.s, base, base, base + p.j - lo, fix), if fix then p.i else base, p.i, hi, fix)
      else
        Loop(steps, Loop(steps, p.s, p.i, p.i, hi, fix), base, lo, p.j, fix)
    else steps.insert(s, lo, hi)
  }
}
