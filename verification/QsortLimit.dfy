/** The exact sizes for which qsort as written sorts: every array of up to 17 elements, and for every
    larger size there is an array it leaves unsorted. */
module QsortLimit {
  import opened QsortModel
  import opened QsortProof

  function Diff(x: int, y: int): int { x - y }

  lemma DiffOrders()
    ensures Preorder(Diff)
  {
    assert forall x, y :: Opposite(Diff, x, y);
    assert forall x, y, z :: Chained(Diff, x, y, z);
  }

  // ---------- a partition whose outcome is known ----------

  lemma {:induction false} ScanUpTo(s: seq<int>, lo: nat, i: nat, r: nat)
    requires lo < |s| && i <= r < |s| && s[r] >= s[lo] && forall k | i <= k < r :: s[k] < s[lo]
    ensures ScanUp(s, Diff, lo, i) == r
    decreases r - i
  {
    if i < r { ScanUpTo(s, lo, i + 1, r); }
  }

  lemma {:induction false} ScanDownTo(s: seq<int>, lo: nat, j: nat, r: nat)
    requires lo < |s| && r <= j < |s| && s[r] <= s[lo] && forall k | r < k <= j :: s[k] > s[lo]
    ensures ScanDown(s, Diff, lo, j) == r
    decreases j - r
  {
    if r < j { ScanDownTo(s, lo, j - 1, r); }
  }

  /** Once the middle element is swapped to the front it separates the rest: below it up to `j`, above
      it from there on. */
  ghost predicate Separated(s: seq<int>, lo: nat, hi: nat, j: nat) {
    && lo < j && j + 1 < hi <= |s|
    && (forall k | lo < k <= j :: s[k] < s[lo]) && (forall k | j < k < hi :: s[k] > s[lo])
  }

  lemma ArrangedAlready(s: seq<int>, lo: nat, hi: nat)
    requires lo + 1 < hi <= |s| && s[lo + 1] < s[lo] < s[hi - 1]
    ensures Arrange(s, Diff, lo, hi, 0) == s
  {
    assert Arrange(s, Diff, lo, hi, 3) == s;
    assert Arrange(s, Diff, lo, hi, 2) == s;
    assert Arrange(s, Diff, lo, hi, 1) == s;
  }

  lemma CleanCut(s: seq<int>, lo: nat, hi: nat, j: nat)
    requires Preorder(Diff) && lo + T < hi <= |s|
    requires Separated(Swap(s, lo + (hi - lo) / 2, lo), lo, hi, j)
    ensures Partition(s, Diff, lo, hi) == Parts(Swap(Swap(s, lo + (hi - lo) / 2, lo), lo, j), j + 1, j)
  {
    var y := Swap(s, lo + (hi - lo) / 2, lo);
    ArrangedAlready(y, lo, hi);
    ScanUpTo(y, lo, lo + 2, j + 1);
    ScanDownTo(y, lo, hi - 2, j);
  }

  // ---------- the family of arrays that stay unsorted ----------

  const TAIL: seq<int> := [5, 2, 3, 4, 6, 7, 8, 9]

  /** All but eight elements are zero, except for the pivot in the middle. */
  function Unlucky(n: nat): (s: seq<int>)
    requires n >= 18
    ensures |s| == n
  {
    seq(n, k requires 0 <= k < n => if k >= n - 8 then TAIL[k - (n - 8)] else if k == n / 2 then 1 else 0)
  }

  lemma FirstCut(n: nat)
    requires Preorder(Diff) && n >= 18
    ensures var p := Partition(Unlucky(n), Diff, 0, n);
            p.i == n - 8 && p.j == n - 9 && |p.s| == n && p.s[n - 8..] == TAIL
  {
    var s := Unlucky(n);
    var y := Swap(s, n / 2, 0);
    assert y[0] == 1 && forall k | 0 < k <= n - 9 :: y[k] == 0;
    assert forall k | n - 8 <= k < n :: y[k] == TAIL[k - (n - 8)];
    CleanCut(s, 0, n, n - 9);
  }

  lemma SecondCut(t: seq<int>, n: nat)
    requires Preorder(Diff) && n >= 18 && |t| == n && t[n - 8..] == TAIL
    ensures var q := Partition(t, Diff, n - 8, n);
            q.i == n - 3 && q.j == n - 4 && |q.s| == n && q.s[n - 8] == 5 && q.s[n - 7] == 2
  {
    assert forall k | n - 8 <= k < n :: t[k] == TAIL[k - (n - 8)];
    var y := Swap(t, n - 4, n - 8);
    assert (n - (n - 8)) / 2 == 4;
    CleanCut(t, n - 8, n, n - 4);
  }

  /** The first cut leaves eight elements on the right, the second cut four on their left, and those
      four are never sorted: the call meant for them sorts the first four of the array. */
  lemma {:induction false} StaysUnsorted(n: nat)
    requires Preorder(Diff) && n >= 18
    ensures !Sorted(Loop(QuickSteps(Diff), Unlucky(n), 0, 0, n, false), Diff, 0, n)
  {
    var steps := QuickSteps(Diff);
    QuickReorders(Diff);
    var p := steps.part(Unlucky(n), 0, n);
    FirstCut(n);
    var t := Loop(steps, p.s, 0, 0, n - 9, false);
    LoopShuffled(steps, p.s, 0, 0, n - 9, false);
    assert t[n - 8..] == TAIL by {
      forall k: nat | n - 8 <= k < n ensures t[k] == p.s[k] { assert Unmoved(p.s, t, k); }
      assert t[n - 8..] == p.s[n - 8..];
    }
    SecondLoop(steps, t, n);
  }

  lemma SecondLoop(steps: Steps<int>, t: seq<int>, n: nat)
    requires Preorder(Diff) && steps == QuickSteps(Diff) && Reorders(steps)
    requires n >= 18 && |t| == n && t[n - 8..] == TAIL
    ensures !Sorted(Loop(steps, t, 0, n - 8, n, false), Diff, 0, n)
  {
    var q := steps.part(t, n - 8, n);
    SecondCut(t, n);
    var u := Loop(steps, q.s, 0, 0, 4, false);
    LoopShuffled(steps, q.s, 0, 0, 4, false);
    assert Unmoved(q.s, u, n - 8) && Unmoved(q.s, u, n - 7);
    var v := steps.insert(u, n - 3, n);
    assert Shuffled(u, v, n - 3, n);
    assert Unmoved(u, v, n - 8) && Unmoved(u, v, n - 7);
    assert Loop(steps, u, 0, n - 3, n, false) == v;
    assert Diff(v[n - 8], v[n - 7]) > 0;
  }

  ghost predicate SortsAll(n: nat) {
    DiffOrders();
    forall s: seq<int> | |s| == n :: Sorted(Loop(QuickSteps(Diff), s, 0, 0, n, false), Diff, 0, n)
  }

  /** qsort sorts all arrays of `n` numbers exactly when there are at most 17 of them. */
  lemma SortsExactly(n: nat)
    ensures SortsAll(n) <==> n <= 17
  {
    DiffOrders();
    if n <= 17 {
      QuickReorders(Diff);
      QuickOrders(Diff);
      forall s: seq<int> | |s| == n ensures Sorted(Loop(QuickSteps(Diff), s, 0, 0, n, false), Diff, 0, n) {
        LoopSorts(QuickSteps(Diff), Diff, s, 0, 0, n, false);
      }
    } else {
      StaysUnsorted(n);
    }
  }
}
