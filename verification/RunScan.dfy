/** First-fit search for a run of free pages, as one pass that only remembers the length of the
    current run. Both the page allocator and the search for virtual addresses work this way. */
module RunScan {

  ghost predicate AllFree(free: int -> bool, lo: int, hi: int) {
    forall q | lo <= q < hi :: free(q)
  }

  /** `num` free pages start at `lo`. */
  ghost predicate Fits(free: int -> bool, num: nat, lo: int) {
    AllFree(free, lo, lo + num)
  }

  /** `s` is the lowest place in [from, end) for `num` pages. */
  ghost predicate FirstFit(free: int -> bool, from: int, end: int, num: nat, s: int) {
    && from <= s && s + num <= end && Fits(free, num, s)
    && forall lo | from <= lo < s :: !Fits(free, num, lo)
  }

  ghost predicate NoFit(free: int -> bool, from: int, end: int, num: nat) {
    forall lo | from <= lo && lo + num <= end :: !Fits(free, num, lo)
  }

  /** Pages from `from` up to `pos` have been scanned: the last `count` of them are free, with a used
      page before them, and nothing fits. */
  ghost predicate Scanned(free: int -> bool, from: int, num: nat, pos: int, count: int) {
    && 0 <= count < num && from <= pos - count
    && AllFree(free, pos - count, pos)
    && (pos - count > from ==> !free(pos - count - 1))
    && NoFit(free, from, pos, num)
  }

  lemma ScanStart(free: int -> bool, from: int, num: nat)
    requires num > 0
    ensures Scanned(free, from, num, from, 0)
  {
  }

  /** Free pages up to `pos'` extend the run, and complete it if they are enough. */
  lemma ScanFree(free: int -> bool, from: int, end: int, num: nat, pos: int, count: int, pos': int)
    requires Scanned(free, from, num, pos, count) && pos <= pos' <= end && AllFree(free, pos, pos')
    ensures count + (pos' - pos) < num ==> Scanned(free, from, num, pos', count + (pos' - pos))
    ensures count + (pos' - pos) >= num ==> FirstFit(free, from, end, num, pos - count)
  {
    var s := pos - count;
    forall lo | from <= lo && (lo < s || (lo + num <= pos' && pos' - s < num))
      ensures !Fits(free, num, lo)
    {
      if lo < s && lo + num > pos { assert !free(s - 1); }
    }
  }

  lemma ScanUsed(free: int -> bool, from: int, num: nat, pos: int, count: int)
    requires Scanned(free, from, num, pos, count) && !free(pos)
    ensures Scanned(free, from, num, pos + 1, 0)
  {
  }
}
