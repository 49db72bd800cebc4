/** The searches of kernel/mm/virt.c for free virtual pages: vm_find_addr, vm_find_range, and the
    allocation of kernel addresses on top of them. */
module PageSearch {
  import opened Common
  import opened PageTable
  import opened RunScan

  function PageAt(pdi: nat, pti: nat): nat { pdi * LEN + pti }

  /** safe_pti: page 0 is never handed out. */
  function SafePti(pdi: nat): nat { if pdi == 0 then 1 else 0 }

  /** Which virtual pages are not mapped. */
  ghost function FreeIn(pdir: Level, tables: map<Page, Level>): int -> bool {
    q => 0 <= q < PAGES && Lookup(pdir, tables, q) == None
  }

  /** Directory slot `pdi` as the searches see it: the free entries of its table, or everything. */
  ghost predicate SlotFree(f: int -> bool, pdir: Level, tables: map<Page, Level>, pdi: nat)
    requires pdi < LEN
  {
    if Present(pdir[pdi])
    then FrameOf(pdir[pdi]) in tables && forall k | 0 <= k < LEN :: f(PageAt(pdi, k)) <==> !Present(tables[FrameOf(pdir[pdi])][k])
    else AllFree(f, PageAt(pdi, 0), PageAt(pdi, LEN))
  }

  lemma SlotIsFree(pdir: Level, tables: map<Page, Level>, free: set<Page>, pdi: nat)
    requires WellFormed(pdir, tables, free) && pdi < LEN
    ensures SlotFree(FreeIn(pdir, tables), pdir, tables, pdi)
  {
    var f := FreeIn(pdir, tables);
    forall k | 0 <= k < LEN ensures Dir(PageAt(pdi, k)) == pdi && Tab(PageAt(pdi, k)) == k { }
    forall q | PageAt(pdi, 0) <= q < PageAt(pdi, LEN) ensures Dir(q) == pdi { }
  }

  /** `f` says which pages the page tables leave free. */
  ghost predicate AllSlots(f: int -> bool, pdir: Level, tables: map<Page, Level>) {
    forall pdi: nat | pdi < LEN :: SlotFree(f, pdir, tables, pdi)
  }

  lemma FreeInSlots(pdir: Level, tables: map<Page, Level>, free: set<Page>)
    requires WellFormed(pdir, tables, free)
    ensures AllSlots(FreeIn(pdir, tables), pdir, tables)
  {
    forall pdi: nat | pdi < LEN ensures SlotFree(FreeIn(pdir, tables), pdir, tables, pdi) {
      SlotIsFree(pdir, tables, free, pdi);
    }
  }

  // ---------- vm_find_addr ----------

  /** vm_find_addr: the address of the lowest free page but page 0, or 0 when every page is mapped. */
  method FindAddr(pdir: Level, tables: map<Page, Level>, ghost f: int -> bool) returns (r: nat)
    requires AllSlots(f, pdir, tables)
    ensures r == 0 ==> NoFit(f, 1, PAGES, 1)
    ensures r != 0 ==> r % PAGE_SIZE == 0 && FirstFit(f, 1, PAGES, 1, r / PAGE_SIZE)
  {
    ScanStart(f, 1, 1);
    var pdi: nat := 0;
    while pdi < LEN
      invariant pdi <= LEN && Scanned(f, 1, 1, if pdi == 0 then 1 else PageAt(pdi, 0), 0)
    {
      assert SlotFree(f, pdir, tables, pdi);
      var pti := SafePti(pdi);
      if Present(pdir[pdi]) { pti := FindEntry(tables[FrameOf(pdir[pdi])], pdi, pti, f); }
      if pti < LEN {
        FoundFree(f, PageAt(pdi, pti));
        return PageAt(pdi, pti) * PAGE_SIZE;
      }
      pdi := pdi + 1;
    }
    r := 0;
  }

  /** The lowest entry of a table from `first` on that is not present. */
  method FindEntry(tab: Level, pdi: nat, first: nat, ghost f: int -> bool) returns (pti: nat)
    requires pdi < LEN && first <= LEN && Scanned(f, 1, 1, PageAt(pdi, first), 0)
    requires forall k | 0 <= k < LEN :: f(PageAt(pdi, k)) <==> !Present(tab[k])
    ensures pti <= LEN && Scanned(f, 1, 1, PageAt(pdi, pti), 0) && (pti < LEN ==> f(PageAt(pdi, pti)))
  {
    pti := first;
    while pti < LEN && Present(tab[pti])
      invariant pti <= LEN && Scanned(f, 1, 1, PageAt(pdi, pti), 0)
    {
      assert !f(PageAt(pdi, pti));
      ScanUsed(f, 1, 1, PageAt(pdi, pti), 0);
      pti := pti + 1;
    }
  }

  lemma FoundFree(f: int -> bool, page: nat)
    requires Scanned(f, 1, 1, page, 0) && f(page) && page < PAGES
    ensures FirstFit(f, 1, PAGES, 1, page)
    ensures page * PAGE_SIZE / PAGE_SIZE == page && page * PAGE_SIZE % PAGE_SIZE == 0 && page > 0
  {
    ScanFree(f, 1, PAGES, 1, page, 0, page + 1);
  }

  // ---------- vm_find_range ----------

  /** The run starts in a table that the scan entered in the middle of an earlier, shorter run: the
      directory index noted at the start of that earlier run is not refreshed. */
  ghost predicate Stale(f: int -> bool, s: int) {
    s >= LEN && f(s / LEN * LEN - 1)
  }

  /** The directory index noted while table `d` is scanned: that of the last table up to it that was entered without a
      run, behind a page in use. */
  ghost function NotedSlot(f: int -> bool, d: nat): (r: nat)
    ensures r <= d && (r == d <==> d == 0 || !f(d * LEN - 1))
  {
    if d == 0 || !f(d * LEN - 1) then d else NotedSlot(f, d - 1)
  }

  /** The page that is taken for page `s`, where a run starts. */
  ghost function NotedPage(f: int -> bool, s: nat): nat { PageAt(NotedSlot(f, s / LEN), s % LEN) }

  /** `pdstart` and `ptstart` as noted for a run that really starts at page `s`. */
  ghost predicate Noted(f: int -> bool, s: int, pdstart: nat, ptstart: nat) {
    s >= 0 && ptstart == s % LEN && pdstart == NotedSlot(f, s / LEN)
  }

  /** A run that starts in table `pdi`. */
  lemma NotedHere(f: int -> bool, pdi: nat, pti: nat, pdstart: nat)
    requires pdi < LEN && pti < LEN && pdstart == NotedSlot(f, pdi)
    ensures Noted(f, PageAt(pdi, pti), pdstart, pti)
  {
    var s := PageAt(pdi, pti);
    assert s / LEN == pdi && s % LEN == pti;
  }

  /** The length of the run that ends the search: a search for no pages stops at the first free one. */
  function Wanted(num: nat): (w: nat)
    ensures w > 0
  {
    if num == 0 then 1 else num
  }

  /** A run of `count` free pages up to page `pos`, noted as starting at page `s`; for a single page nothing is
      noted before it is found. */
  ghost predicate Running(f: int -> bool, num: nat, pos: int, count: nat, s: int, pdstart: nat, ptstart: nat) {
    && Scanned(f, 1, Wanted(num), pos, count)
    && (count > 0 ==> s == pos - count && Noted(f, s, pdstart, ptstart))
    && (num == 0 ==> ptstart == 0)
  }

  lemma RunUsed(f: int -> bool, num: nat, pos: int, count: nat, s: int, pdstart: nat, ptstart: nat)
    requires Running(f, num, pos, count, s, pdstart, ptstart) && !f(pos)
    ensures Running(f, num, pos + 1, 0, s, pdstart, ptstart)
  {
    ScanUsed(f, 1, Wanted(num), pos, count);
  }

  /** Free pages up to page `next`; `s` and `ptstart` are noted by now. */
  lemma RunFree(f: int -> bool, num: nat, pos: int, count: nat, s: int, pdstart: nat, ptstart: nat,
                next: int)
    requires Scanned(f, 1, Wanted(num), pos, count) && s == pos - count && Noted(f, s, pdstart, ptstart)
    requires pos < next <= PAGES && AllFree(f, pos, next)
    ensures var more := count + (next - pos);
            if more >= Wanted(num) then FirstFit(f, 1, PAGES, Wanted(num), s)
            else Running(f, num, next, more, s, pdstart, ptstart)
  {
    ScanFree(f, 1, PAGES, Wanted(num), pos, count, next);
  }

  /** One page of a table. */
  lemma RunStep(f: int -> bool, num: nat, pos: nat, count: nat, s: int, pdstart: nat, ptstart: nat, pti: nat)
    requires Running(f, num, pos, count, s, pdstart, ptstart) && pos < PAGES
    requires count == 0 ==> Noted(f, pos, pdstart, pti)
    ensures var (s', pt') := if count == 0 then (pos as int, pti) else (s, ptstart);
            f(pos) ==>
              && Noted(f, s', pdstart, pt')
              && if count + 1 >= Wanted(num) then FirstFit(f, 1, PAGES, Wanted(num), s')
                 else Running(f, num, pos + 1, count + 1, s', pdstart, pt')
    ensures !f(pos) ==> Running(f, num, pos + 1, 0, s, pdstart, ptstart)
  {
    if f(pos) {
      RunFree(f, num, pos, count, if count == 0 then pos else s, pdstart, if count == 0 then pti else ptstart, pos + 1);
    } else {
      RunUsed(f, num, pos, count, s, pdstart, ptstart);
    }
  }

  /** The scan of one present table, entered with a run of `count0` free pages. */
  method ScanTable(tab: Level, ghost f: int -> bool, num: nat, pdi: nat, count0: nat, pdstart: nat, ptstart0: nat,
                   ghost s0: int)
    returns (count: nat, ptstart: nat, ghost s: int)
    requires pdi < LEN && forall k | 0 <= k < LEN :: f(PageAt(pdi, k)) <==> !Present(tab[k])
    requires Running(f, num, PageAt(pdi, SafePti(pdi)), count0, s0, pdstart, ptstart0)
    requires pdstart == NotedSlot(f, pdi)
    ensures if count >= Wanted(num) then FirstFit(f, 1, PAGES, Wanted(num), s) && Noted(f, s, pdstart, ptstart)
            else Running(f, num, PageAt(pdi + 1, 0), count, s, pdstart, ptstart)
  {
    var pti := SafePti(pdi);
    count, ptstart, s := count0, ptstart0, s0;
    ghost var pos: nat := PageAt(pdi, pti);
    while pti < LEN
      invariant pti <= LEN && pos == PageAt(pdi, pti) && Running(f, num, pos, count, s, pdstart, ptstart)
    {
      assert f(PageAt(pdi, pti)) <==> !Present(tab[pti]);
      if count == 0 { NotedHere(f, pdi, pti, pdstart); }
      RunStep(f, num, pos, count, s, pdstart, ptstart, pti);
      if !Present(tab[pti]) {
        if count == 0 { ptstart, s := pti, pos; }
        count := count + 1;
        if count >= num { return; }
      } else {
        count := 0;
      }
      pti, pos := pti + 1, pos + 1;
    }
  }

  /** One round of the loop of vm_find_range: a table that is there is scanned, a missing one is free. */
  method ScanSlot(pdir: Level, tables: map<Page, Level>, ghost f: int -> bool, num: nat, pdi: nat, count0: nat,
                  pdstart: nat, ptstart0: nat, ghost s0: int)
    returns (count: nat, ptstart: nat, ghost s: int)
    requires pdi < LEN && SlotFree(f, pdir, tables, pdi)
    requires Running(f, num, PageAt(pdi, SafePti(pdi)), count0, s0, pdstart, ptstart0)
    requires pdstart == NotedSlot(f, pdi)
    ensures if count >= Wanted(num) then FirstFit(f, 1, PAGES, Wanted(num), s) && Noted(f, s, pdstart, ptstart)
            else Running(f, num, PageAt(pdi + 1, 0), count, s, pdstart, ptstart)
  {
    if Present(pdir[pdi]) {
      count, ptstart, s := ScanTable(tables[FrameOf(pdir[pdi])], f, num, pdi, count0, pdstart, ptstart0, s0);
    } else {
      ghost var pos := PageAt(pdi, SafePti(pdi));
      count, ptstart, s := count0, ptstart0, s0;
      if count == 0 {
        ptstart, s := SafePti(pdi), pos;
        NotedHere(f, pdi, ptstart, pdstart);
      }
      RunFree(f, num, pos, count, s, pdstart, ptstart, PageAt(pdi + 1, 0));
      count := count + (LEN - SafePti(pdi));
    }
  }

  /** A table is entered with a run exactly if the page before it is free. */
  lemma SlotNoted(f: int -> bool, num: nat, pdi: nat, count: nat)
    requires pdi < LEN && Scanned(f, 1, Wanted(num), PageAt(pdi, SafePti(pdi)), count)
    ensures count == 0 ==> NotedSlot(f, pdi) == pdi
    ensures count > 0 && pdi > 0 ==> NotedSlot(f, pdi) == NotedSlot(f, pdi - 1)
    ensures count > 0 ==> pdi > 0
  {
  }

  /** vm_find_range. The address returned is that of the first fit unless the run is stale. A search for no pages
      looks at the first table only. */
  method FindRange(pdir: Level, tables: map<Page, Level>, ghost f: int -> bool, num: nat) returns (r: nat, ghost s: int)
    requires AllSlots(f, pdir, tables)
    ensures r == 0 ==> if num == 0 then NoFit(f, 1, LEN, 1) else NoFit(f, 1, PAGES, num)
    ensures r != 0 ==>
              && (if num == 0 then FirstFit(f, 1, LEN, 1, s) else FirstFit(f, 1, PAGES, num, s))
              && r == NotedPage(f, s) * PAGE_SIZE
              && if Stale(f, s) then r < s * PAGE_SIZE else r == s * PAGE_SIZE
  {
    var pdi: nat, count: nat, pdstart: nat, ptstart: nat := 0, 0, 0, 0;
    s := 0;
    ScanStart(f, 1, Wanted(num));
    while pdi < LEN
      invariant pdi <= LEN && (pdi > 0 ==> pdstart == NotedSlot(f, pdi - 1)) && (num == 0 ==> pdi == 0)
      invariant Running(f, num, PageAt(pdi, SafePti(pdi)), count, s, pdstart, ptstart)
    {
      assert SlotFree(f, pdir, tables, pdi);
      if count == 0 { pdstart := pdi; }
      SlotNoted(f, num, pdi, count);
      count, ptstart, s := ScanSlot(pdir, tables, f, num, pdi, count, pdstart, ptstart, s);
      if count >= num {
        r := PageAt(pdstart, ptstart) * PAGE_SIZE;
        if count > 0 { NotedAddress(f, num, s, pdstart, ptstart, r); }
        return;
      }
      pdi := pdi + 1;
    }
    r := 0;
  }

  lemma InFirstTable(f: int -> bool, s: int, ptstart: nat)
    requires FirstFit(f, 1, PAGES, 1, s) && Noted(f, s, 0, ptstart)
    ensures FirstFit(f, 1, LEN, 1, s)
  {
    SinglePageNeverStale(f, s);
  }

  /** The noted indices give a non-zero address, too low if the run is stale. */
  lemma NotedAddress(f: int -> bool, num: nat, s: int, pdstart: nat, ptstart: nat, r: nat)
    requires FirstFit(f, 1, PAGES, Wanted(num), s) && Noted(f, s, pdstart, ptstart) && (num == 0 ==> pdstart == 0)
    requires r == PageAt(pdstart, ptstart) * PAGE_SIZE
    ensures r != 0 && r % PAGE_SIZE == 0
    ensures if Stale(f, s) then r < s * PAGE_SIZE else r == s * PAGE_SIZE
    ensures num == 0 ==> FirstFit(f, 1, LEN, 1, s)
  {
    NotedWhere(f, Wanted(num), s, pdstart, ptstart);
    if num == 0 { InFirstTable(f, s, ptstart); }
  }

  lemma NotedWhere(f: int -> bool, num: nat, s: int, pdstart: nat, ptstart: nat)
    requires FirstFit(f, 1, PAGES, num, s) && num > 0 && Noted(f, s, pdstart, ptstart)
    ensures PageAt(pdstart, ptstart) > 0
    ensures if Stale(f, s) then PageAt(pdstart, ptstart) < s else PageAt(pdstart, ptstart) == s
  {
    assert f(s - 1) ==> Fits(f, num, s - 1);
  }

  /** vm_find_range gives free pages exactly when the run it found is not stale. */
  lemma RangeFreeIff(f: int -> bool, num: nat, s: int, r: nat)
    requires FirstFit(f, 1, PAGES, num, s) && r != 0 && r % PAGE_SIZE == 0
    requires if Stale(f, s) then r < s * PAGE_SIZE else r == s * PAGE_SIZE
    ensures Fits(f, num, r / PAGE_SIZE) <==> !Stale(f, s)
  {
  }

  /** For a single page the run is never stale. */
  lemma SinglePageNeverStale(f: int -> bool, s: int)
    requires FirstFit(f, 1, PAGES, 1, s)
    ensures !Stale(f, s)
  {
    var q := s / LEN * LEN - 1;
    assert Fits(f, 1, q) == f(q);
  }

  /** Two tables that make vm_find_range return mapped pages: the last page of the first table is free,
      the first page of the second is not, and two free pages follow. */
  function StaleTable(i: int): Level {
    if i == 0 then seq(LEN, k => if k == LEN - 1 then 0 else 1)
    else seq(LEN, k => if k == 1 || k == 2 then 0 else 1)
  }

  lemma StaleExists()
    ensures exists pdir: Level, tables: map<Page, Level>, free: set<Page>, s ::
              WellFormed(pdir, tables, free) && FirstFit(FreeIn(pdir, tables), 1, PAGES, 2, s) && Stale(FreeIn(pdir, tables), s)
  {
    var zero: Level := seq(LEN, _ => 0);
    var pdir: Level := zero[0 := Pack(8, 1)][1 := Pack(9, 1)];
    var tables: map<Page, Level> := map[8 := StaleTable(0), 9 := StaleTable(1)];
    var f := FreeIn(pdir, tables);
    PackFacts(8, 1);
    PackFacts(9, 1);
    assert WellFormed(pdir, tables, {});
    forall q: Page | q < 2 * LEN ensures f(q) <==> q == 1023 || q == 1025 || q == 1026 {
      assert Dir(q) == if q < LEN then 0 else 1;
    }
    forall lo | 1 <= lo < 1025 ensures !Fits(f, 2, lo) { assert !f(lo) || !f(lo + 1); }
    assert FirstFit(f, 1, PAGES, 2, 1025) && Stale(f, 1025);
  }

  // ---------- vm_alloc_addr and vm_free_addr ----------

  /** The pages that `size` bytes from `offset` in a page on take up, and NUM_PAGES of them in 32 bits. */
  function NumPages(offset: nat, size: nat): nat { (offset + size + PAGE_SIZE - 1) / PAGE_SIZE }

  function NumPages32(offset: nat, size: nat): nat {
    ((offset + size) % WORD + PAGE_SIZE - 1) % WORD / PAGE_SIZE
  }

  /** Within a page of 4 GiB the number of pages comes out as 0 or 1; below, it is right. */
  lemma PagesWrap(offset: nat, size: nat)
    requires offset < PAGE_SIZE && size < WORD
    ensures if offset + size + PAGE_SIZE - 1 < WORD then NumPages32(offset, size) == NumPages(offset, size)
            else NumPages32(offset, size) <= 1
  {
    var t := offset + size;
    if t < WORD {
      assert t % WORD == t;
    } else {
      assert t % WORD == t - WORD;
    }
  }

  /** Every byte asked for lies in a page that is mapped exactly if the size does not come within a page of 4 GiB. */
  lemma AllBytesIff(offset: nat, size: nat)
    requires offset < PAGE_SIZE && size < WORD
    ensures (forall b | 0 <= b < size :: ByteIn(offset, b, NumPages32(offset, size))) <==> offset + size + PAGE_SIZE - 1 < WORD
  {
    PagesWrap(offset, size);
    if offset + size + PAGE_SIZE - 1 < WORD {
      forall b | 0 <= b < size ensures ByteIn(offset, b, NumPages32(offset, size)) { }
    } else {
      assert !ByteIn(offset, size - 1, NumPages32(offset, size));
    }
  }

  /** For all bytes of the address space but one, no page is counted. */
  lemma NothingCounted()
    ensures NumPages32(0, 0xFFFF_FFFF) == 0
  {
    PagesWrap(0, 0xFFFF_FFFF);
    assert (0xFFFF_FFFF + PAGE_SIZE - 1) % WORD == PAGE_SIZE - 2;
  }

  /** Byte `b` behind `offset` lies in the first `n` pages. */
  predicate ByteIn(offset: nat, b: nat, n: nat) { (offset + b) / PAGE_SIZE < n }

  /** Byte `b` behind address `v` lies in the page `(v % PAGE_SIZE + b) / PAGE_SIZE` pages on. */
  lemma ByteInPages(a: nat, b: nat)
    ensures (a + b) / PAGE_SIZE - a / PAGE_SIZE == (a % PAGE_SIZE + b) / PAGE_SIZE
    ensures (a + b) % PAGE_SIZE == (a % PAGE_SIZE + b) % PAGE_SIZE
  {
  }

  /** vm_alloc_addr: map `size` bytes from physical address `pstart` on somewhere, `n` pages by the code's count.
      Physical addresses wrap around 4 GiB. The fit `s` is the lowest. The pages mapped are those from the page noted
      for it on, and it succeeds exactly if these can be mapped; unless the fit is stale they are its own, and then that
      takes no more than frames for the missing tables. */
  method AllocAddr(a: AddressSpace, pstart: nat, flags: Flags, size: nat) returns (ok: bool, v: nat, ghost s: int)
    requires a.Valid() && pstart < WORD && size < WORD
    modifies a
    ensures a.Valid() && SlotsFrom(old(a.pdir), a.pdir, flags)
    ensures var n := NumPages32(pstart % PAGE_SIZE, size);
            && (ok ==> v % PAGE_SIZE == pstart % PAGE_SIZE && 0 < v / PAGE_SIZE < PAGES && v / PAGE_SIZE + n <= PAGES)
            && (ok && flags % 2 == 1 ==> ResolvesTo(a, v, pstart, n))
            && (ok ==> forall q: Page :: RangeAt(old(a.At(q)), a.At(q), v / PAGE_SIZE, pstart / PAGE_SIZE, flags, n, q))
            && (ok && flags % 2 == 1 ==>
                  Absent(a.pdir) == old(Absent(a.pdir)) - Slots(old(Absent(a.pdir)), v / PAGE_SIZE, n))
    ensures var f, n := old(FreeIn(a.pdir, a.tables)), NumPages32(pstart % PAGE_SIZE, size);
            && (n > 0 && !NoFit(f, 1, PAGES, n) ==> FirstFit(f, 1, PAGES, n, s))
            && (n > 0 && NoFit(f, 1, PAGES, n) ==> !ok)
            && (n > 0 && FirstFit(f, 1, PAGES, n, s) ==>
                  && v == NotedPage(f, s) * PAGE_SIZE + pstart % PAGE_SIZE && v / PAGE_SIZE < PAGES
                  && (ok <==> Mappable(old(a.pdir), old(a.tables), |old(a.free)|, v / PAGE_SIZE, pstart, flags, n))
                  && (!Stale(f, s) ==> v / PAGE_SIZE == s))
            && (n > 0 && FirstFit(f, 1, PAGES, n, s) && !Stale(f, s) && flags % 2 == 1 ==>
                  (ok <==> |Slots(old(Absent(a.pdir)), s, n)| <= |old(a.free)|))
            && (n == 0 ==> (ok <==> !NoFit(f, 1, LEN, 1)) && (ok ==> FirstFit(f, 1, LEN, 1, s) && v / PAGE_SIZE == s))
  {
    var offset := pstart % PAGE_SIZE;
    var n := NumPages32(offset, size);
    var r;
    r, s := FindFit(a, n, FreeIn(a.pdir, a.tables));
    v := r + offset;
    if r == 0 { return false, v, s; }
    ok := MapFound(a, pstart, flags, v, n);
  }

  /** The search of vm_alloc_addr: the pages of the lowest fit are unmapped. */
  method FindFit(a: AddressSpace, n: nat, ghost f: int -> bool) returns (r: nat, ghost s: int)
    requires a.Valid() && f == FreeIn(a.pdir, a.tables)
    ensures if n == 0 then r == 0 <==> NoFit(f, 1, LEN, 1) else r == 0 <==> NoFit(f, 1, PAGES, n)
    ensures r == 0 && n > 0 ==> !FirstFit(f, 1, PAGES, n, s)
    ensures r != 0 ==>
              && (if n == 0 then FirstFit(f, 1, LEN, 1, s) && !Stale(f, s)
                  else FirstFit(f, 1, PAGES, n, s) && Unmapped(a.pdir, a.tables, s, n))
              && r % PAGE_SIZE == 0 && 0 < r / PAGE_SIZE < PAGES && r / PAGE_SIZE + n <= PAGES
              && (n > 0 ==> r == NotedPage(f, s) * PAGE_SIZE)
              && (!Stale(f, s) ==> r / PAGE_SIZE == s)
  {
    FreeInSlots(a.pdir, a.tables, a.free);
    r, s := FindRange(a.pdir, a.tables, f, n);
    NoneFits(f, n, s);
    FitsUnmapped(a.pdir, a.tables, n, s);
    FitIsSome(f, n, s);
  }

  /** Where nothing fits there is no first fit. */
  lemma NoneFits(f: int -> bool, n: nat, s: int)
    ensures n > 0 && NoFit(f, 1, PAGES, n) ==> !FirstFit(f, 1, PAGES, n, s)
  {
  }

  lemma FitIsSome(f: int -> bool, n: nat, s: int)
    ensures n > 0 && FirstFit(f, 1, PAGES, n, s) ==> !NoFit(f, 1, PAGES, n)
    ensures FirstFit(f, 1, LEN, 1, s) ==> !NoFit(f, 1, LEN, 1) && !Stale(f, s)
  {
    if FirstFit(f, 1, LEN, 1, s) {
      assert Fits(f, 1, s);
    }
    if FirstFit(f, 1, PAGES, n, s) {
      assert Fits(f, n, s);
    }
  }

  /** The bytes of the `n` pages that address `v` begins in are the physical ones from `pstart` on. */
  ghost predicate ResolvesTo(a: AddressSpace, v: nat, pstart: nat, n: nat)
    reads a
  {
    forall x | v <= x < WORD && x / PAGE_SIZE < v / PAGE_SIZE + n :: ResolvesAt(a, v, pstart, x)
  }

  ghost predicate ResolvesAt(a: AddressSpace, v: nat, pstart: nat, x: nat)
    requires v <= x < WORD
    reads a
  {
    Resolve(a.pdir, a.tables, x) == (pstart + (x - v)) % WORD
  }

  lemma {:induction false} ResolvesThere(pdir: Level, tables: map<Page, Level>, v: nat, pstart: nat, x: nat)
    requires v % PAGE_SIZE == pstart % PAGE_SIZE && v <= x < WORD && pstart < WORD
    requires var e := Lookup(pdir, tables, x / PAGE_SIZE);
             e.Some? && FrameOf(e.value) == Plus(pstart / PAGE_SIZE, Ahead(v / PAGE_SIZE, x / PAGE_SIZE))
    ensures Resolve(pdir, tables, x) == (pstart + (x - v)) % WORD
  {
    ByteInPages(v, x - v);
    ByteInPages(pstart, x - v);
    Around(pstart / PAGE_SIZE, (pstart % PAGE_SIZE + (x - v)) / PAGE_SIZE, pstart + (x - v));
  }

  /** The page `d` pages behind page `p`, around the end, is the page of the address taken modulo 4 GiB. */
  lemma Around(p: Page, d: nat, addr: nat)
    requires addr / PAGE_SIZE == p + d && d < PAGES
    ensures addr % WORD == Plus(p, d) * PAGE_SIZE + addr % PAGE_SIZE
  {
    assert d % PAGES == d;
    if p + d < PAGES {
      assert addr % WORD == addr;
    } else {
      assert addr % WORD == addr - WORD;
    }
  }

  /** `n` pages can be mapped from page `v` on: none of them conflicts, and there are frames for the missing tables. To
      map without the present flag takes a frame for every page in a missing table instead. */
  ghost predicate Mappable(pdir: Level, tables: map<Page, Level>, frames: nat, v: Page, pstart: nat, flags: Flags, n: nat)
    requires pstart < WORD
  {
    if flags % 2 == 0 then Leaks(Absent(pdir), v, n) <= frames
    else Clear(pdir, tables, v, pstart / PAGE_SIZE, flags, n) && |Slots(Absent(pdir), v, n)| <= frames
  }

  /** The part of vm_alloc_addr that maps the pages it found. */
  method MapFound(a: AddressSpace, pstart: nat, flags: Flags, v: nat, n: nat) returns (ok: bool)
    requires a.Valid() && pstart < WORD && v % PAGE_SIZE == pstart % PAGE_SIZE && v / PAGE_SIZE < PAGES
    requires v / PAGE_SIZE + n <= PAGES
    modifies a
    ensures a.Valid() && (n == 0 ==> ok) && SlotsFrom(old(a.pdir), a.pdir, flags)
    ensures ok && flags % 2 == 1 ==> ResolvesTo(a, v, pstart, n)
    ensures ok ==> forall q: Page :: RangeAt(old(a.At(q)), a.At(q), v / PAGE_SIZE, pstart / PAGE_SIZE, flags, n, q)
    ensures ok <==> Mappable(old(a.pdir), old(a.tables), |old(a.free)|, v / PAGE_SIZE, pstart, flags, n)
    ensures flags % 2 == 1 && old(Unmapped(a.pdir, a.tables, v / PAGE_SIZE, n)) ==>
              (ok <==> |Slots(old(Absent(a.pdir)), v / PAGE_SIZE, n)| <= |old(a.free)|)
    ensures ok && flags % 2 == 1 ==> Absent(a.pdir) == old(Absent(a.pdir)) - Slots(old(Absent(a.pdir)), v / PAGE_SIZE, n)
  {
    ghost var pdir0, tables0 := a.pdir, a.tables;
    var vp := v / PAGE_SIZE;
    ok := a.MapRange(vp, pstart / PAGE_SIZE, flags, n);
    if ok {
      assert forall q: Page :: RangeAt(Lookup(pdir0, tables0, q), a.At(q), vp, pstart / PAGE_SIZE, flags, n, q);
      if flags % 2 == 1 {
        forall x | v <= x < WORD && x / PAGE_SIZE < vp + n ensures ResolvesAt(a, v, pstart, x) {
          var q := x / PAGE_SIZE;
          assert RangeAt(Lookup(pdir0, tables0, q), a.At(q), vp, pstart / PAGE_SIZE, flags, n, q);
          ResolvesThere(a.pdir, a.tables, v, pstart, x);
        }
      }
    }
  }

  /** The pages of a fit are not mapped. */
  lemma FitsUnmapped(pdir: Level, tables: map<Page, Level>, num: nat, s: int)
    ensures FirstFit(FreeIn(pdir, tables), 1, PAGES, num, s) && num > 0 ==> Unmapped(pdir, tables, s, num)
  {
    if FirstFit(FreeIn(pdir, tables), 1, PAGES, num, s) && num > 0 {
      forall q: Page | Ahead(s, q) < num ensures Lookup(pdir, tables, q) == None {
        assert FreeIn(pdir, tables)(q);
      }
    }
  }

  /** vm_free_addr: unmap the pages, around the end of the address space. Pages in slots without a table cost a frame
      each. */
  method FreeAddr(a: AddressSpace, v: nat, size: nat) returns (ok: bool)
    requires a.Valid() && v < WORD && size < WORD
    modifies a
    ensures a.Valid()
    ensures ok <==> Leaks(old(Absent(a.pdir)), v / PAGE_SIZE, NumPages32(v % PAGE_SIZE, size)) <= |old(a.free)|
    ensures ok ==> forall q: Page ::
              a.At(q) == if Ahead(v / PAGE_SIZE, q) < NumPages32(v % PAGE_SIZE, size) then None else old(a.At(q))
  {
    var n := NumPages32(v % PAGE_SIZE, size);
    ok := a.UnmapRange(v / PAGE_SIZE, n);
  }

  /** Allocating an address and freeing it again leaves every page as it was, if the run was not stale. */
  method AllocAndFree(a: AddressSpace, pstart: nat, flags: Flags, size: nat) returns (ok: bool, ghost s: int)
    requires a.Valid() && pstart < WORD && size < WORD
    modifies a
    ensures a.Valid()
    ensures var f, n := old(FreeIn(a.pdir, a.tables)), NumPages32(pstart % PAGE_SIZE, size);
            && (n > 0 && !NoFit(f, 1, PAGES, n) ==> FirstFit(f, 1, PAGES, n, s))
            && (ok && (n > 0 ==> !Stale(f, s)) ==> forall q: Page :: a.At(q) == old(a.At(q)))
            && (n > 0 && FirstFit(f, 1, PAGES, n, s) && !Stale(f, s) && flags % 2 == 1 ==>
                  (ok <==> |Slots(old(Absent(a.pdir)), s, n)| <= |old(a.free)|))
  {
    ghost var pdir0, tables0 := a.pdir, a.tables;
    var v;
    ok, v, s := AllocAddr(a, pstart, flags, size);
    if !ok { return; }
    ghost var n := NumPages32(pstart % PAGE_SIZE, size);
    FitsUnmapped(pdir0, tables0, n, s);
    if flags % 2 == 1 { NoLeaks(Absent(pdir0), v / PAGE_SIZE, n, n); }
    ok := FreeAddr(a, v, size);
  }
}
