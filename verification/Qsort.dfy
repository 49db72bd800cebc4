/** lib/libc/functions/stdlib/qsort.c, in place on an array. */
module Qsort {
  import opened QsortModel
  import opened QsortProof

  method MemSwap<A>(a: array<A>, i: nat, j: nat)
    requires i < a.Length && j < a.Length
    modifies a
    ensures a[..] == Swap(old(a[..]), i, j)
  {
    a[i], a[j] := a[j], a[i];
  }

  /** First, second and last element arranged around the former middle one, the median first. */
  method MedianFirst<A>(a: array<A>, cmp: Cmp<A>, lo: nat, hi: nat)
    requires lo + 1 < hi <= a.Length
    modifies a
    ensures a[..] == Median(old(a[..]), cmp, lo, hi)
  {
    MemSwap(a, lo + (hi - lo) / 2, lo);
    ghost var s1 := a[..];
    if cmp(a[lo + 1], a[hi - 1]) > 0 { MemSwap(a, lo + 1, hi - 1); }
    assert Arrange(s1, cmp, lo, hi, 0) == Arrange(a[..], cmp, lo, hi, 1);
    ghost var s2 := a[..];
    if cmp(a[lo], a[hi - 1]) > 0 { MemSwap(a, lo, hi - 1); }
    assert Arrange(s2, cmp, lo, hi, 1) == Arrange(a[..], cmp, lo, hi, 2);
    ghost var s3 := a[..];
    if cmp(a[lo + 1], a[lo]) > 0 { MemSwap(a, lo + 1, lo); }
    assert Arrange(s3, cmp, lo, hi, 2) == Arrange(a[..], cmp, lo, hi, 3);
  }

  /** One round of the partition loop: move `i` right and `j` left until both stop. */
  method Scan<A>(a: array<A>, cmp: Cmp<A>, lo: nat, hi: nat, i0: nat, j0: nat) returns (i: nat, j: nat)
    requires hi <= a.Length && Split(a[..], cmp, lo, hi, i0, j0)
    ensures i == ScanUp(a[..], cmp, lo, i0 + 1) && j == ScanDown(a[..], cmp, lo, j0 - 1)
    ensures i0 < i < hi && lo < j < j0
  {
    ScansStop(a[..], cmp, lo, hi, i0, j0);
    i := i0 + 1;
    while cmp(a[i], a[lo]) < 0
      invariant i0 < i <= ScanUp(a[..], cmp, lo, i0 + 1) == ScanUp(a[..], cmp, lo, i)
      decreases hi - i
    {
      i := i + 1;
    }
    j := j0 - 1;
    while cmp(a[j], a[lo]) > 0
      invariant j < j0 && lo < ScanDown(a[..], cmp, lo, j0 - 1) == ScanDown(a[..], cmp, lo, j) <= j
      decreases j
    {
      j := j - 1;
    }
  }

  method PartitionArray<A(!new)>(a: array<A>, cmp: Cmp<A>, lo: nat, hi: nat) returns (i: nat, j: nat)
    requires Preorder(cmp) && lo + T < hi <= a.Length
    modifies a
    ensures Parts(a[..], i, j) == Partition(old(a[..]), cmp, lo, hi)
  {
    MedianFirst(a, cmp, lo, hi);
    MedianSplits(old(a[..]), cmp, lo, hi);
    ghost var m := a[..];
    i, j := lo + 1, hi - 1;
    while true
      invariant Split(a[..], cmp, lo, hi, i, j)
      invariant PartLoop(a[..], cmp, lo, i, j) == PartLoop(m, cmp, lo, lo + 1, hi - 1)
      decreases j - i
    {
      ScansStop(a[..], cmp, lo, hi, i, j);
      i, j := Scan(a, cmp, lo, hi, i, j);
      if i > j { break; }
      MemSwap(a, i, j);
    }
    MemSwap(a, lo, j);
  }

  method SinkArray<A>(a: array<A>, cmp: Cmp<A>, lo: nat, k: nat)
    requires lo <= k && k + 1 < a.Length
    modifies a
    ensures a[..] == Sink(old(a[..]), cmp, lo, k)
  {
    var j := k;
    while cmp(a[j], a[j + 1]) > 0
      invariant lo <= j <= k && Sink(a[..], cmp, lo, j) == Sink(old(a[..]), cmp, lo, k)
      decreases j
    {
      MemSwap(a, j, j + 1);
      if j == lo { return; }
      j := j - 1;
    }
  }

  method InsertionArray<A>(a: array<A>, cmp: Cmp<A>, lo: nat, hi: nat)
    requires lo <= hi <= a.Length
    modifies a
    ensures a[..] == Insertion(old(a[..]), cmp, lo, lo + 1, hi)
  {
    var i := lo + 1;
    while i < hi
      invariant lo < i && Insertion(a[..], cmp, lo, i, hi) == Insertion(old(a[..]), cmp, lo, lo + 1, hi)
    {
      SinkArray(a, cmp, lo, i - 1);
      i := i + 1;
    }
  }

  /** `steps` stands for the partition and the insertion sort above. */
  ghost predicate Follows<A(!new)>(steps: Steps<A>, cmp: Cmp<A>) {
    forall s, lo: nat, hi: nat | lo <= hi <= |s| :: FollowsAt(steps, cmp, s, lo, hi)
  }

  ghost predicate FollowsAt<A(!new)>(steps: Steps<A>, cmp: Cmp<A>, s: seq<A>, lo: nat, hi: nat)
    requires lo <= hi <= |s|
  {
    && (lo + T < hi && Preorder(cmp) ==> steps.part(s, lo, hi) == Partition(s, cmp, lo, hi))
    && steps.insert(s, lo, hi) == Insertion(s, cmp, lo, lo + 1, hi)
  }

  method PartStep<A(!new)>(a: array<A>, cmp: Cmp<A>, lo: nat, hi: nat, ghost steps: Steps<A>)
    returns (i: nat, j: nat)
    requires Preorder(cmp) && lo + T < hi <= a.Length && Follows(steps, cmp)
    modifies a
    ensures Parts(a[..], i, j) == steps.part(old(a[..]), lo, hi)
  {
    assert FollowsAt(steps, cmp, a[..], lo, hi);
    i, j := PartitionArray(a, cmp, lo, hi);
  }

  method InsertStep<A(!new)>(a: array<A>, cmp: Cmp<A>, lo: nat, hi: nat, ghost steps: Steps<A>)
    requires lo <= hi <= a.Length && Follows(steps, cmp)
    modifies a
    ensures a[..] == steps.insert(old(a[..]), lo, hi)
  {
    assert FollowsAt(steps, cmp, a[..], lo, hi);
    InsertionArray(a, cmp, lo, hi);
  }

  lemma SortNone<A(!new)>(s: seq<A>, cmp: Cmp<A>, base: nat, steps: Steps<A>)
    requires Follows(steps, cmp) && Sound(steps) && base <= |s|
    ensures Loop(steps, s, base, base, base, false) == s
  {
    assert FollowsAt(steps, cmp, s, base, base);
  }

  /** qsort on the `nmemb` elements from `base` on, as written. */
  method SortRange<A(!new)>(a: array<A>, base: nat, nmemb: nat, cmp: Cmp<A>, ghost steps: Steps<A>)
    requires Preorder(cmp) && Sound(steps) && Follows(steps, cmp) && base + nmemb <= a.Length
    modifies a
    ensures a[..] == Loop(steps, old(a[..]), base, base, base + nmemb, false)
    decreases nmemb
  {
    if nmemb == 0 {
      SortNone(a[..], cmp, base, steps);
      return;
    }
    var lo, limit := base, base + nmemb;
    while limit - lo > T
      invariant base <= lo <= limit <= base + nmemb
      invariant Loop(steps, a[..], base, lo, limit, false) == Loop(steps, old(a[..]), base, base, base + nmemb, false)
      decreases limit - lo
    {
      assert Cuts(steps, a[..], lo, limit);
      var i, j := PartStep(a, cmp, lo, limit, steps);
      if j - lo > limit - i {
        SortRange(a, base, j - lo, cmp, steps);
        lo := i;
      } else {
        SortRange(a, i, limit - i, cmp, steps);
        limit := j;
      }
    }
    InsertStep(a, cmp, lo, limit, steps);
  }

  /** qsort: a permutation of its range in place, nothing else touched, no access outside the range;
      sorted whenever there are at most 17 elements, and with any more at least cut in two. */
  method QuickSort<A(!new)>(a: array<A>, base: nat, nmemb: nat, cmp: Cmp<A>)
    requires Preorder(cmp) && base + nmemb <= a.Length
    modifies a
    ensures a[..] == Loop(QuickSteps(cmp), old(a[..]), base, base, base + nmemb, false)
    ensures Promised(old(a[..]), a[..], cmp, base, nmemb)
  {
    ghost var steps := StepsOf(cmp);
    SortRange(a, base, nmemb, cmp, steps);
    Promise(steps, old(a[..]), cmp, base, nmemb);
  }

  ghost function StepsOf<A(!new)>(cmp: Cmp<A>): (steps: Steps<A>)
    requires Preorder(cmp)
    ensures steps == QuickSteps(cmp) && Sound(steps) && Reorders(steps) && Orders(steps, cmp) && Follows(steps, cmp)
  {
    QuickReorders(cmp);
    QuickOrders(cmp);
    QuickFollows(cmp);
    QuickSteps(cmp)
  }

  lemma QuickFollows<A(!new)>(cmp: Cmp<A>)
    requires Preorder(cmp)
    ensures Follows(QuickSteps(cmp), cmp)
  {
    forall s, lo: nat, hi: nat | lo <= hi <= |s| ensures FollowsAt(QuickSteps(cmp), cmp, s, lo, hi) {
    }
  }

  lemma Promise<A(!new)>(steps: Steps<A>, s: seq<A>, cmp: Cmp<A>, base: nat, n: nat)
    requires Preorder(cmp) && Sound(steps) && Reorders(steps) && Orders(steps, cmp) && base + n <= |s|
    ensures Promised(s, Loop(steps, s, base, base, base + n, false), cmp, base, n)
  {
    LoopShuffled(steps, s, base, base, base + n, false);
    if n <= 17 { SortedUpTo17(steps, s, cmp, base, base + n); }
    if n > T { CutInTwo(steps, s, cmp, base, base + n); }
  }

  lemma SortedUpTo17<A(!new)>(steps: Steps<A>, s: seq<A>, cmp: Cmp<A>, base: nat, hi: nat)
    requires Preorder(cmp) && Sound(steps) && Reorders(steps) && Orders(steps, cmp) && base <= hi <= |s| && hi - base <= 17
    ensures Sorted(Loop(steps, s, base, base, hi, false), cmp, base, hi)
  {
    LoopSorts(steps, cmp, s, base, base, hi, false);
  }

  /** A permutation of the range, sorted for up to 17 elements, and cut in two in any case of more than 7. */
  ghost predicate Promised<A(!new)>(s: seq<A>, r: seq<A>, cmp: Cmp<A>, base: nat, n: nat) {
    && Shuffled(s, r, base, base + n)
    && (n <= 17 ==> Sorted(r, cmp, base, base + n))
    && (n > T ==> Halved(r, cmp, base, base + n))
  }

  lemma CutInTwo<A(!new)>(steps: Steps<A>, s: seq<A>, cmp: Cmp<A>, base: nat, hi: nat)
    requires Sound(steps) && Reorders(steps) && Orders(steps, cmp) && base + T < hi <= |s|
    ensures Halved(Loop(steps, s, base, base, hi, false), cmp, base, hi)
  {
    FirstCutLasts(steps, cmp, s, base, hi);
  }

  /** Some element between the ends has nothing above it before it and nothing below it behind it. */
  ghost predicate Halved<A(!new)>(s: seq<A>, cmp: Cmp<A>, lo: nat, hi: nat) {
    exists j: nat, i: nat, pivot | lo < j < i < hi :: Around(s, cmp, lo, j, i, hi, pivot)
  }
}
