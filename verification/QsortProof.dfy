/** What qsort promises: a permutation of its range and nothing else touched; sorted output for the
    variant that recurses on the segment it partitioned; and the exact sizes for which the code as
    written sorts every array. */
module QsortProof {
  import opened QsortModel

  // ---------- permutation ----------

  /** `t` is `s` with the elements of [lo, hi) reordered. */
  ghost predicate Shuffled<A(!new)>(s: seq<A>, t: seq<A>, lo: nat, hi: nat) {
    && lo <= hi <= |s| == |t|
    && (forall k: nat | k < lo || hi <= k :: Unmoved(s, t, k))
    && (forall x :: Balanced(s, t, x))
  }

  ghost predicate Unmoved<A>(s: seq<A>, t: seq<A>, k: nat) {
    k < |s| && k < |t| ==> s[k] == t[k]
  }

  ghost predicate Balanced<A>(s: seq<A>, t: seq<A>, x: A) {
    multiset(s)[x] == multiset(t)[x]
  }

  lemma ShuffledTrans<A(!new)>(s: seq<A>, t: seq<A>, u: seq<A>, lo: nat, hi: nat)
    requires Shuffled(s, t, lo, hi) && Shuffled(t, u, lo, hi)
    ensures Shuffled(s, u, lo, hi)
  {
    forall k: nat | k < lo || hi <= k ensures Unmoved(s, u, k) {
      assert Unmoved(s, t, k) && Unmoved(t, u, k);
    }
    forall x ensures Balanced(s, u, x) {
      assert Balanced(s, t, x) && Balanced(t, u, x);
    }
  }

  lemma SwapShuffled<A(!new)>(s: seq<A>, i: nat, j: nat, lo: nat, hi: nat)
    requires lo <= i < hi <= |s| && lo <= j < hi
    ensures Shuffled(s, Swap(s, i, j), lo, hi)
  {
  }

  lemma Pieces<A>(s: seq<A>, lo: nat, hi: nat)
    requires lo <= hi <= |s|
    ensures multiset(s) == multiset(s[..lo]) + multiset(s[lo..hi]) + multiset(s[hi..])
  {
    assert s == s[..lo] + (s[lo..hi] + s[hi..]);
  }

  /** The reordered range holds the same elements as before. */
  lemma RangeElements<A(!new)>(s: seq<A>, t: seq<A>, lo: nat, hi: nat)
    requires Shuffled(s, t, lo, hi)
    ensures multiset(s[lo..hi]) == multiset(t[lo..hi])
  {
    Pieces(s, lo, hi);
    Pieces(t, lo, hi);
    assert s[..lo] == t[..lo] by {
      forall k: nat | k < lo ensures s[k] == t[k] { assert Unmoved(s, t, k); }
    }
    assert s[hi..] == t[hi..] by {
      forall k: nat | hi <= k < |s| ensures s[k] == t[k] { assert Unmoved(s, t, k); }
    }
    forall x ensures multiset(s[lo..hi])[x] == multiset(t[lo..hi])[x] {
      assert Balanced(s, t, x);
    }
  }

  /** Every element of the reordered range was in the range before. */
  lemma Came<A(!new)>(s: seq<A>, t: seq<A>, lo: nat, hi: nat, k: nat) returns (i: nat)
    requires Shuffled(s, t, lo, hi) && lo <= k < hi
    ensures lo <= i < hi && s[i] == t[k]
  {
    RangeElements(s, t, lo, hi);
    assert t[k] == t[lo..hi][k - lo];
    assert t[k] in multiset(t[lo..hi]);
    assert t[k] in s[lo..hi];
    var x: nat :| x < hi - lo && s[lo..hi][x] == t[k];
    i := lo + x;
  }

  lemma {:induction false} ArrangeShuffled<A(!new)>(s: seq<A>, cmp: Cmp<A>, lo: nat, hi: nat, k: nat)
    requires lo + 1 < hi <= |s|
    ensures Shuffled(s, Arrange(s, cmp, lo, hi, k), lo, hi)
    decreases 3 - k
  {
    if k < 3 {
      var i, j := if k == 1 then lo else lo + 1, if k == 2 then lo else hi - 1;
      SwapShuffled(s, i, j, lo, hi);
      var t := if cmp(s[i], s[j]) > 0 then Swap(s, i, j) else s;
      ArrangeShuffled(t, cmp, lo, hi, k + 1);
      ShuffledTrans(s, t, Arrange(t, cmp, lo, hi, k + 1), lo, hi);
    }
  }

  lemma MedianShuffled<A(!new)>(s: seq<A>, cmp: Cmp<A>, lo: nat, hi: nat)
    requires lo + 1 < hi <= |s|
    ensures Shuffled(s, Median(s, cmp, lo, hi), lo, hi)
  {
    var s1 := Swap(s, lo + (hi - lo) / 2, lo);
    SwapShuffled(s, lo + (hi - lo) / 2, lo, lo, hi);
    ArrangeShuffled(s1, cmp, lo, hi, 0);
    ShuffledTrans(s, s1, Arrange(s1, cmp, lo, hi, 0), lo, hi);
  }

  lemma {:induction false} PartLoopShuffled<A(!new)>(s: seq<A>, cmp: Cmp<A>, lo: nat, hi: nat, i: nat, j: nat)
    requires Split(s, cmp, lo, hi, i, j)
    ensures Shuffled(s, PartLoop(s, cmp, lo, i, j).s, lo, hi)
    decreases j - i
  {
    ScansStop(s, cmp, lo, hi, i, j);
    var i1, j1 := ScanUp(s, cmp, lo, i + 1), ScanDown(s, cmp, lo, j - 1);
    if i1 <= j1 {
      SwapShuffled(s, i1, j1, lo, hi);
      PartLoopShuffled(Swap(s, i1, j1), cmp, lo, hi, i1, j1);
      ShuffledTrans(s, Swap(s, i1, j1), PartLoop(s, cmp, lo, i, j).s, lo, hi);
    }
  }

  lemma PartitionShuffled<A(!new)>(s: seq<A>, cmp: Cmp<A>, lo: nat, hi: nat)
    requires Preorder(cmp) && lo + T < hi <= |s|
    ensures Shuffled(s, Partition(s, cmp, lo, hi).s, lo, hi)
  {
    MedianSplits(s, cmp, lo, hi);
    var m := Median(s, cmp, lo, hi);
    var p := PartLoop(m, cmp, lo, lo + 1, hi - 1);
    MedianShuffled(s, cmp, lo, hi);
    PartLoopShuffled(m, cmp, lo, hi, lo + 1, hi - 1);
    PartLoopParts(m, cmp, lo, hi, lo + 1, hi - 1);
    SwapShuffled(p.s, lo, p.j, lo, hi);
    ThreeSteps(s, m, p.s, Swap(p.s, lo, p.j), lo, hi, lo, lo, hi, lo, hi);
  }

  lemma {:induction false} SinkShuffled<A(!new)>(s: seq<A>, cmp: Cmp<A>, lo: nat, j: nat, hi: nat)
    requires lo <= j && j + 1 < hi <= |s|
    ensures Shuffled(s, Sink(s, cmp, lo, j), lo, hi)
    decreases j
  {
    if cmp(s[j], s[j + 1]) > 0 {
      SwapShuffled(s, j, j + 1, lo, hi);
      if j > lo {
        SinkShuffled(Swap(s, j, j + 1), cmp, lo, j - 1, hi);
        ShuffledTrans(s, Swap(s, j, j + 1), Sink(s, cmp, lo, j), lo, hi);
      }
    }
  }

  lemma {:induction false} InsertionShuffled<A(!new)>(s: seq<A>, cmp: Cmp<A>, lo: nat, i: nat, hi: nat)
    requires lo < i && lo <= hi <= |s|
    ensures Shuffled(s, Insertion(s, cmp, lo, i, hi), lo, hi)
    decreases hi - i
  {
    if i < hi {
      SinkShuffled(s, cmp, lo, i - 1, hi);
      InsertionShuffled(Sink(s, cmp, lo, i - 1), cmp, lo, i + 1, hi);
      ShuffledTrans(s, Sink(s, cmp, lo, i - 1), Insertion(s, cmp, lo, i, hi), lo, hi);
    }
  }

  lemma ShuffledWiden<A(!new)>(s: seq<A>, t: seq<A>, lo: nat, hi: nat, lo1: nat, hi1: nat)
    requires Shuffled(s, t, lo, hi) && lo1 <= lo && hi <= hi1 <= |s|
    ensures Shuffled(s, t, lo1, hi1)
  {
  }

  /** Both steps only reorder the segment they are given. */
  ghost predicate Reorders<A(!new)>(steps: Steps<A>) {
    && (forall s, lo: nat, hi: nat | lo + T < hi <= |s| :: Shuffled(s, steps.part(s, lo, hi).s, lo, hi))
    && (forall s, lo: nat, hi: nat | lo <= hi <= |s| :: Shuffled(s, steps.insert(s, lo, hi), lo, hi))
  }

  lemma QuickReorders<A(!new)>(cmp: Cmp<A>)
    requires Preorder(cmp)
    ensures Reorders(QuickSteps(cmp))
  {
    var steps := QuickSteps(cmp);
    forall s, lo: nat, hi: nat | lo + T < hi <= |s| ensures Shuffled(s, steps.part(s, lo, hi).s, lo, hi) {
      PartitionShuffled(s, cmp, lo, hi);
    }
    forall s, lo: nat, hi: nat | lo <= hi <= |s| ensures Shuffled(s, steps.insert(s, lo, hi), lo, hi) {
      InsertionShuffled(s, cmp, lo, lo + 1, hi);
    }
  }

  /** qsort, as written or not, reorders its own elements and touches nothing else. */
  lemma {:induction false} LoopShuffled<A(!new)>(steps: Steps<A>, s: seq<A>, base: nat, lo: nat, hi: nat, fix: bool)
    requires Sound(steps) && Reorders(steps) && base <= lo <= hi <= |s|
    ensures Shuffled(s, Loop(steps, s, base, lo, hi, fix), base, hi)
    decreases hi - lo
  {
    if hi - lo > T {
      var p := steps.part(s, lo, hi);
      assert Cuts(steps, s, lo, hi);
      if p.j - lo > hi - p.i {
        var b := if fix then p.i else base;
        LoopShuffled(steps, p.s, base, base, base + p.j - lo, fix);
        var t := Loop(steps, p.s, base, base, base + p.j - lo, fix);
        LoopShuffled(steps, t, b, p.i, hi, fix);
        ThreeSteps(s, p.s, t, Loop(steps, t, b, p.i, hi, fix), base, hi, lo, base, base + p.j - lo, b, hi);
      } else {
        LoopShuffled(steps, p.s, p.i, p.i, hi, fix);
        var t := Loop(steps, p.s, p.i, p.i, hi, fix);
        LoopShuffled(steps, t, base, lo, p.j, fix);
        ThreeSteps(s, p.s, t, Loop(steps, t, base, lo, p.j, fix), base, hi, lo, p.i, hi, base, p.j);
      }
    } else {
      ShuffledWiden(s, steps.insert(s, lo, hi), lo, hi, base, hi);
    }
  }

  lemma ThreeSteps<A(!new)>(s: seq<A>, t: seq<A>, u: seq<A>, v: seq<A>, lo: nat, hi: nat,
                            lo0: nat, lo1: nat, hi1: nat, lo2: nat, hi2: nat)
    requires Shuffled(s, t, lo0, hi) && Shuffled(t, u, lo1, hi1) && Shuffled(u, v, lo2, hi2)
    requires lo <= lo0 && lo <= lo1 && hi1 <= hi && lo <= lo2 && hi2 <= hi
    ensures Shuffled(s, v, lo, hi)
  {
    ShuffledWiden(s, t, lo0, hi, lo, hi);
    ShuffledWiden(t, u, lo1, hi1, lo, hi);
    ShuffledWiden(u, v, lo2, hi2, lo, hi);
    ShuffledTrans(s, t, u, lo, hi);
    ShuffledTrans(s, u, v, lo, hi);
  }

  // ---------- sortedness ----------

  ghost predicate Sorted<A>(s: seq<A>, cmp: Cmp<A>, lo: nat, hi: nat) {
    hi <= |s| && forall i, j | lo <= i < j < hi :: cmp(s[i], s[j]) <= 0
  }

  /** Left of `j` nothing is above the pivot, from `j` up to `i` everything equals it, from `i` on
      nothing is below it. */
  ghost predicate Around<A>(s: seq<A>, cmp: Cmp<A>, lo: nat, j: nat, i: nat, hi: nat, pivot: A) {
    && lo <= j < i <= hi <= |s|
    && (forall k | lo <= k < i :: cmp(s[k], pivot) <= 0)
    && (forall k | j <= k < hi :: cmp(s[k], pivot) >= 0)
  }

  lemma PartitionAround<A(!new)>(s: seq<A>, cmp: Cmp<A>, lo: nat, hi: nat)
    requires Preorder(cmp) && lo + T < hi <= |s|
    ensures var p := Partition(s, cmp, lo, hi); Around(p.s, cmp, lo, p.j, p.i, hi, p.s[p.j])
  {
    MedianSplits(s, cmp, lo, hi);
    var q := PartLoop(Median(s, cmp, lo, hi), cmp, lo, lo + 1, hi - 1);
    PartLoopParts(Median(s, cmp, lo, hi), cmp, lo, hi, lo + 1, hi - 1);
    PivotPlaced(q, cmp, lo, hi);
  }

  /** The pivot goes from the front between the two parts. */
  lemma PivotPlaced<A(!new)>(q: Parts<A>, cmp: Cmp<A>, lo: nat, hi: nat)
    requires Preorder(cmp) && Parted(q, cmp, lo, hi)
    ensures Around(Swap(q.s, lo, q.j), cmp, lo, q.j, q.i, hi, q.s[lo])
  {
    assert Opposite(cmp, q.s[lo], q.s[lo]);
  }

  /** Reordering the left part, or the right part, keeps a partition. */
  lemma AroundKept<A(!new)>(s: seq<A>, t: seq<A>, cmp: Cmp<A>, lo: nat, j: nat, i: nat, hi: nat, pivot: A,
                      a: nat, b: nat)
    requires Around(s, cmp, lo, j, i, hi, pivot) && Shuffled(s, t, a, b)
    requires (lo <= a && b <= j) || (i <= a && b <= hi)
    ensures Around(t, cmp, lo, j, i, hi, pivot)
  {
    forall k | lo <= k < i ensures cmp(t[k], pivot) <= 0 {
      if a <= k < b { var x := Came(s, t, a, b, k); } else { assert Unmoved(s, t, k); }
    }
    forall k | j <= k < hi ensures cmp(t[k], pivot) >= 0 {
      if a <= k < b { var x := Came(s, t, a, b, k); } else { assert Unmoved(s, t, k); }
    }
  }

  lemma SortedKept<A(!new)>(s: seq<A>, t: seq<A>, cmp: Cmp<A>, lo: nat, hi: nat, a: nat, b: nat)
    requires Sorted(s, cmp, lo, hi) && Shuffled(s, t, a, b) && (hi <= a || b <= lo)
    ensures Sorted(t, cmp, lo, hi)
  {
    forall i, j | lo <= i < j < hi ensures cmp(t[i], t[j]) <= 0 {
      assert Unmoved(s, t, i) && Unmoved(s, t, j);
    }
  }

  /** Sorted left of the pivots, sorted right of them: sorted. */
  lemma Joined<A(!new)>(s: seq<A>, cmp: Cmp<A>, lo: nat, j: nat, i: nat, hi: nat, pivot: A)
    requires Preorder(cmp) && Around(s, cmp, lo, j, i, hi, pivot)
    requires Sorted(s, cmp, lo, j) && Sorted(s, cmp, i, hi)
    ensures Sorted(s, cmp, lo, hi)
  {
    forall x, y | lo <= x < y < hi ensures cmp(s[x], s[y]) <= 0 {
      if x < i && j <= y {
        assert Opposite(cmp, pivot, s[y]) && Chained(cmp, s[x], pivot, s[y]);
      }
    }
  }

  /** Sinking the next element into a sorted prefix, seen from the middle: everything up to `hi` is
      sorted once the element behind `j` is left out, and that element is below all behind it. */
  ghost predicate Sinking<A>(s: seq<A>, cmp: Cmp<A>, lo: nat, j: nat, hi: nat) {
    && lo <= j && j + 1 < hi <= |s|
    && (forall x, y | lo <= x < y < hi && x != j + 1 && y != j + 1 :: cmp(s[x], s[y]) <= 0)
    && (forall y | j + 1 < y < hi :: cmp(s[j + 1], s[y]) <= 0)
  }

  lemma SinkStep<A(!new)>(s: seq<A>, cmp: Cmp<A>, lo: nat, j: nat, hi: nat)
    requires Preorder(cmp) && Sinking(s, cmp, lo, j, hi) && cmp(s[j], s[j + 1]) > 0
    ensures j > lo ==> Sinking(Swap(s, j, j + 1), cmp, lo, j - 1, hi)
    ensures j == lo ==> Sorted(Swap(s, j, j + 1), cmp, lo, hi)
  {
    assert Opposite(cmp, s[j], s[j + 1]);
  }

  lemma {:induction false} SinkSorts<A(!new)>(s: seq<A>, cmp: Cmp<A>, lo: nat, j: nat, hi: nat)
    requires Preorder(cmp) && Sinking(s, cmp, lo, j, hi)
    ensures Sorted(Sink(s, cmp, lo, j), cmp, lo, hi)
    decreases j
  {
    if cmp(s[j], s[j + 1]) > 0 {
      SinkStep(s, cmp, lo, j, hi);
      if j > lo {
        SinkSorts(Swap(s, j, j + 1), cmp, lo, j - 1, hi);
      }
    } else {
      forall x, y | lo <= x < y < hi ensures cmp(s[x], s[y]) <= 0 {
        if y == j + 1 && x < j {
          assert Chained(cmp, s[x], s[j], s[j + 1]);
        }
      }
    }
  }

  lemma {:induction false} InsertionSorts<A(!new)>(s: seq<A>, cmp: Cmp<A>, lo: nat, i: nat, hi: nat)
    requires Preorder(cmp) && lo < i && hi <= |s| && Sorted(s, cmp, lo, if i < hi then i else hi)
    ensures Sorted(Insertion(s, cmp, lo, i, hi), cmp, lo, hi)
    decreases hi - i
  {
    if i < hi {
      SinkSorts(s, cmp, lo, i - 1, i + 1);
      InsertionSorts(Sink(s, cmp, lo, i - 1), cmp, lo, i + 1, hi);
    }
  }

  /** The partition step splits around a pivot, the insertion step sorts. */
  ghost predicate Orders<A(!new)>(steps: Steps<A>, cmp: Cmp<A>) {
    && (forall s, lo: nat, hi: nat | lo + T < hi <= |s| :: Pivots(steps.part(s, lo, hi), cmp, lo, hi))
    && (forall s, lo: nat, hi: nat | lo <= hi <= |s| :: Sorted(steps.insert(s, lo, hi), cmp, lo, hi))
  }

  ghost predicate Pivots<A>(p: Parts<A>, cmp: Cmp<A>, lo: nat, hi: nat) {
    lo <= p.j < p.i <= hi <= |p.s| && Around(p.s, cmp, lo, p.j, p.i, hi, p.s[p.j])
  }

  lemma QuickOrders<A(!new)>(cmp: Cmp<A>)
    requires Preorder(cmp)
    ensures Orders(QuickSteps(cmp), cmp)
  {
    var steps := QuickSteps(cmp);
    forall s, lo: nat, hi: nat | lo + T < hi <= |s| ensures Pivots(steps.part(s, lo, hi), cmp, lo, hi) {
      PartitionAround(s, cmp, lo, hi);
    }
    forall s, lo: nat, hi: nat | lo <= hi <= |s| ensures Sorted(steps.insert(s, lo, hi), cmp, lo, hi) {
      InsertionSorts(s, cmp, lo, lo + 1, hi);
    }
  }

  /** When the loop sorts its segment: always, if the left recursion starts at the segment; otherwise
      as long as no segment that starts past `base` is long enough to be partitioned. */
  ghost predicate Sortable(base: nat, lo: nat, hi: nat, fix: bool) {
    if fix then base == lo else (base == lo && hi - lo <= 17) || hi - lo <= T
  }

  lemma TwoHalves<A(!new)>(t: seq<A>, u: seq<A>, cmp: Cmp<A>, p: Parts<A>, lo: nat, hi: nat,
                           left: bool)
    requires Preorder(cmp) && Pivots(p, cmp, lo, hi)
    requires if left then Shuffled(p.s, t, lo, p.j) && Shuffled(t, u, p.i, hi)
             else Shuffled(p.s, t, p.i, hi) && Shuffled(t, u, lo, p.j)
    requires if left then Sorted(t, cmp, lo, p.j) && Sorted(u, cmp, p.i, hi)
             else Sorted(t, cmp, p.i, hi) && Sorted(u, cmp, lo, p.j)
    ensures Sorted(u, cmp, lo, hi)
  {
    var pivot := p.s[p.j];
    if left {
      AroundKept(p.s, t, cmp, lo, p.j, p.i, hi, pivot, lo, p.j);
      AroundKept(t, u, cmp, lo, p.j, p.i, hi, pivot, p.i, hi);
      SortedKept(t, u, cmp, lo, p.j, p.i, hi);
    } else {
      AroundKept(p.s, t, cmp, lo, p.j, p.i, hi, pivot, p.i, hi);
      AroundKept(t, u, cmp, lo, p.j, p.i, hi, pivot, lo, p.j);
      SortedKept(t, u, cmp, p.i, hi, lo, p.j);
    }
    Joined(u, cmp, lo, p.j, p.i, hi, pivot);
  }

  /** The loop sorts every segment that satisfies `Sortable`, whatever the elements. */
  lemma {:induction false} LoopSorts<A(!new)>(steps: Steps<A>, cmp: Cmp<A>, s: seq<A>, base: nat, lo: nat, hi: nat,
                                              fix: bool)
    requires Preorder(cmp) && Sound(steps) && Reorders(steps) && Orders(steps, cmp)
    requires base <= lo <= hi <= |s| && Sortable(base, lo, hi, fix)
    ensures var r := Loop(steps, s, base, lo, hi, fix); Sorted(r, cmp, lo, hi) && Shuffled(s, r, lo, hi)
    decreases hi - lo, 1
  {
    if base == lo { LoopShuffled(steps, s, base, lo, hi, fix); }
    if hi - lo > T {
      var p := steps.part(s, lo, hi);
      assert Cuts(steps, s, lo, hi);
      assert Pivots(p, cmp, lo, hi);
      if p.j - lo > hi - p.i {
        LeftFirst(steps, cmp, p, lo, hi, fix);
      } else {
        RightFirst(steps, cmp, p, lo, hi, fix);
      }
    }
  }

  lemma {:induction false} LeftFirst<A(!new)>(steps: Steps<A>, cmp: Cmp<A>, p: Parts<A>, lo: nat, hi: nat, fix: bool)
    requires Preorder(cmp) && Sound(steps) && Reorders(steps) && Orders(steps, cmp)
    requires Sortable(lo, lo, hi, fix) && hi - lo > T && Pivots(p, cmp, lo, hi) && p.j > lo && p.i < hi
    requires p.j - lo > hi - p.i
    ensures Sorted(Loop(steps, Loop(steps, p.s, lo, lo, p.j, fix), if fix then p.i else lo, p.i, hi, fix), cmp, lo, hi)
    decreases hi - lo, 0
  {
    LoopSorts(steps, cmp, p.s, lo, lo, p.j, fix);
    var t, b := Loop(steps, p.s, lo, lo, p.j, fix), if fix then p.i else lo;
    LoopSorts(steps, cmp, t, b, p.i, hi, fix);
    TwoHalves(t, Loop(steps, t, b, p.i, hi, fix), cmp, p, lo, hi, true);
  }

  lemma {:induction false} RightFirst<A(!new)>(steps: Steps<A>, cmp: Cmp<A>, p: Parts<A>, lo: nat, hi: nat, fix: bool)
    requires Preorder(cmp) && Sound(steps) && Reorders(steps) && Orders(steps, cmp)
    requires Sortable(lo, lo, hi, fix) && hi - lo > T && Pivots(p, cmp, lo, hi) && p.j > lo && p.i < hi
    ensures Sorted(Loop(steps, Loop(steps, p.s, p.i, p.i, hi, fix), lo, lo, p.j, fix), cmp, lo, hi)
    decreases hi - lo, 0
  {
    LoopSorts(steps, cmp, p.s, p.i, p.i, hi, fix);
    var t := Loop(steps, p.s, p.i, p.i, hi, fix);
    LoopSorts(steps, cmp, t, lo, lo, p.j, fix);
    TwoHalves(t, Loop(steps, t, lo, lo, p.j, fix), cmp, p, lo, hi, false);
  }

  // ---------- what the code as written leaves of any array ----------

  /** The wrong left recursion works on the front of the array, inside the part left of an earlier cut. */
  lemma {:induction false} LoopKeepsCut<A(!new)>(steps: Steps<A>, cmp: Cmp<A>, s: seq<A>, base: nat, lo: nat, hi: nat,
                                                 j: nat, i: nat, end: nat, pivot: A)
    requires Sound(steps) && Reorders(steps) && Around(s, cmp, base, j, i, end, pivot)
    requires base + (hi - lo) <= j && i <= lo <= hi <= end
    ensures Around(Loop(steps, s, base, lo, hi, false), cmp, base, j, i, end, pivot)
    decreases hi - lo
  {
    if hi - lo > T {
      var p := steps.part(s, lo, hi);
      assert Cuts(steps, s, lo, hi);
      assert Shuffled(s, p.s, lo, hi);
      AroundKept(s, p.s, cmp, base, j, i, end, pivot, lo, hi);
      if p.j - lo > hi - p.i {
        LoopShuffled(steps, p.s, base, base, base + p.j - lo, false);
        var t := Loop(steps, p.s, base, base, base + p.j - lo, false);
        AroundKept(p.s, t, cmp, base, j, i, end, pivot, base, base + p.j - lo);
        LoopKeepsCut(steps, cmp, t, base, p.i, hi, j, i, end, pivot);
      } else {
        LoopShuffled(steps, p.s, p.i, p.i, hi, false);
        var t := Loop(steps, p.s, p.i, p.i, hi, false);
        AroundKept(p.s, t, cmp, base, j, i, end, pivot, p.i, hi);
        LoopKeepsCut(steps, cmp, t, base, lo, p.j, j, i, end, pivot);
      }
    } else {
      assert Shuffled(s, steps.insert(s, lo, hi), lo, hi);
      AroundKept(s, steps.insert(s, lo, hi), cmp, base, j, i, end, pivot, lo, hi);
    }
  }

  /** However many elements there are, the first cut lasts: the median of three that it was made around has nothing
      above it before it and nothing below it behind it. */
  lemma FirstCutLasts<A(!new)>(steps: Steps<A>, cmp: Cmp<A>, s: seq<A>, base: nat, hi: nat)
    requires Sound(steps) && Reorders(steps) && Orders(steps, cmp) && base + T < hi <= |s|
    ensures var p := steps.part(s, base, hi);
            && base < p.j < p.i < hi && |p.s| == |s|
            && Around(Loop(steps, s, base, base, hi, false), cmp, base, p.j, p.i, hi, p.s[p.j])
  {
    var p := steps.part(s, base, hi);
    assert Cuts(steps, s, base, hi);
    assert Pivots(p, cmp, base, hi);
    var pivot := p.s[p.j];
    if p.j - base > hi - p.i {
      LoopShuffled(steps, p.s, base, base, p.j, false);
      var t := Loop(steps, p.s, base, base, p.j, false);
      AroundKept(p.s, t, cmp, base, p.j, p.i, hi, pivot, base, p.j);
      LoopKeepsCut(steps, cmp, t, base, p.i, hi, p.j, p.i, hi, pivot);
    } else {
      LoopShuffled(steps, p.s, p.i, p.i, hi, false);
      var t := Loop(steps, p.s, p.i, p.i, hi, false);
      AroundKept(p.s, t, cmp, base, p.j, p.i, hi, pivot, p.i, hi);
      LoopShuffled(steps, t, base, base, p.j, false);
      AroundKept(t, Loop(steps, t, base, base, p.j, false), cmp, base, p.j, p.i, hi, pivot, base, p.j);
    }
  }
}
