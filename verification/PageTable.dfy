/** kernel/mm/virt.c and kernel/mm/intern.h: two-level page tables, proved to behave as one flat map
    from virtual pages to page frames. Page-table memory is `tables`, keyed by frame number; the frames
    mm_alloc_page can hand out are `free`. */
module PageTable {
  import opened Common
  import opened Ranges

  const LEN := 1024            // PDIR_LEN and PTAB_LEN

  type Entry = e: int | 0 <= e < 0x1_0000_0000
  type Flags = f: int | 0 <= f < PAGE_SIZE
  type Level = t: seq<Entry> | |t| == LEN witness seq(LEN, _ => 0)

  // ---------- entries ----------

  predicate Present(e: Entry) { e % 2 == 1 }
  function FrameOf(e: Entry): Page { e / PAGE_SIZE }          // getaddr
  function FlagsOf(e: Entry): Flags { e % PAGE_SIZE }         // getflags
  function Pack(frame: Page, flags: Flags): Entry { frame * PAGE_SIZE + flags }

  /** Clear the accessed and dirty bits, which the processor sets. */
  function ClearAD(e: Entry): Entry {
    e - e / 32 % 2 * 32 - e / 64 % 2 * 64
  }

  function Dir(v: Page): (i: nat) ensures i < LEN { v / LEN }      // pdir_index
  function Tab(v: Page): (i: nat) ensures i < LEN { v % LEN }      // ptab_index

  // ---------- what the tables mean ----------

  /** Present directory slots point to page tables, no two to the same one; free frames hold none. */
  ghost predicate WellFormed(pdir: Level, tables: map<Page, Level>, free: set<Page>) {
    && (forall i | 0 <= i < LEN :: Present(pdir[i]) ==> FrameOf(pdir[i]) in tables)
    && (forall i, j | 0 <= i < j < LEN :: Present(pdir[i]) && Present(pdir[j]) ==> FrameOf(pdir[i]) != FrameOf(pdir[j]))
    && tables.Keys !! free
  }

  /** The page table entry that maps virtual page `v`, if there is one (get_ptab_entry). */
  function Lookup(pdir: Level, tables: map<Page, Level>, v: Page): (r: Option<Entry>)
    ensures r.Some? ==> Present(r.value)
  {
    var pde := pdir[Dir(v)];
    if !Present(pde) || FrameOf(pde) !in tables then None
    else
      var pte := tables[FrameOf(pde)][Tab(v)];
      if Present(pte) then Some(pte) else None
  }

  /** vm_resolve_virt */
  function Resolve(pdir: Level, tables: map<Page, Level>, addr: nat): nat
    requires addr < PAGES * PAGE_SIZE
  {
    match Lookup(pdir, tables, addr / PAGE_SIZE)
    case None => 0
    case Some(pte) => FrameOf(pte) * PAGE_SIZE + addr % PAGE_SIZE
  }

  /** The processor's translation of a linear address: bits 22 to 31 choose the directory entry and bits 12 to 21 the
      entry of its table, in both of which bit 0 must be set; bits 0 to 11 stay. */
  ghost function Translated(pdir: Level, tables: map<Page, Level>, addr: nat): Option<nat>
    requires addr < 0x1_0000_0000
  {
    var pde := pdir[addr / 0x40_0000];
    if pde % 2 == 0 || pde / 0x1000 !in tables then None
    else
      var pte := tables[pde / 0x1000][addr / 0x1000 % 0x400];
      if pte % 2 == 0 then None else Some(pte / 0x1000 * 0x1000 + addr % 0x1000)
  }

  /** vm_resolve_virt gives the address that the processor goes to, and 0 where it faults. */
  lemma ResolveTranslates(pdir: Level, tables: map<Page, Level>, addr: nat)
    requires addr < PAGES * PAGE_SIZE
    ensures Resolve(pdir, tables, addr) ==
            (match Translated(pdir, tables, addr) case None => 0 case Some(physical) => physical)
  {
    assert addr / 0x1000 / 0x400 == addr / 0x40_0000;
  }

  /** The address it gives is in the frame of the page, at the same offset. It is 0 exactly if the page is not mapped, or
      for the first byte of frame 0. */
  lemma ResolveIs(pdir: Level, tables: map<Page, Level>, addr: nat)
    requires addr < PAGES * PAGE_SIZE
    ensures var e, r := Lookup(pdir, tables, addr / PAGE_SIZE), Resolve(pdir, tables, addr);
            && (e.Some? ==> r / PAGE_SIZE == FrameOf(e.value) && r % PAGE_SIZE == addr % PAGE_SIZE)
            && (r == 0 <==> e == None || (FrameOf(e.value) == 0 && addr % PAGE_SIZE == 0))
  {
  }

  lemma SameSlot(v: Page, q: Page)
    ensures Dir(v) == Dir(q) && Tab(v) == Tab(q) <==> v == q
  {
  }

  lemma PackFacts(frame: Page, flags: Flags)
    ensures FrameOf(Pack(frame, flags)) == frame && FlagsOf(Pack(frame, flags)) == flags
    ensures Present(Pack(frame, flags)) <==> flags % 2 == 1
  {
  }

  lemma SameFrame(a: nat, low: nat)
    requires low < 128
    ensures (128 * a + low) / PAGE_SIZE == a / 32 && (128 * a + low) % 2 == low % 2
  {
  }

  lemma SevenBits(e: nat)
    ensures e == 128 * (e / 128) + 64 * (e / 64 % 2) + 32 * (e / 32 % 2) + e % 32
  {
    var h := e / 32;
    var g := h / 2;
    assert e / 64 == g && e / 128 == g / 2;
  }

  /** Entries that differ only in accessed and dirty have the same frame and presence. */
  lemma ClearADFacts(e: Entry)
    ensures FrameOf(ClearAD(e)) == FrameOf(e) && (Present(ClearAD(e)) <==> Present(e))
  {
    var a, b, c, d := e / 128, e / 64 % 2, e / 32 % 2, e % 32;
    SevenBits(e);
    EvenLow(b, c, d);
    SameFrame(a, 64 * b + 32 * c + d);
    SameFrame(a, d);
  }

  lemma EvenLow(b: nat, c: nat, d: nat)
    ensures (64 * b + 32 * c + d) % 2 == d % 2
  {
    Parity(64 * b + 32 * c + d, 32 * b + 16 * c + d / 2, d % 2);
  }

  lemma Parity(x: nat, q: nat, r: nat)
    requires x == 2 * q + r && r < 2
    ensures x % 2 == r
  {
  }

  /** Writing one entry of one table changes the flat map at one page. */
  lemma LookupWrite(pdir: Level, tables: map<Page, Level>, free: set<Page>, v: Page, e: Entry,
                    q: Page)
    requires WellFormed(pdir, tables, free) && Present(pdir[Dir(v)])
    ensures FrameOf(pdir[Dir(v)]) in tables
    ensures var t := FrameOf(pdir[Dir(v)]);
            Lookup(pdir, tables[t := tables[t][Tab(v) := e]], q) ==
              if q == v then (if Present(e) then Some(e) else None) else Lookup(pdir, tables, q)
  {
    SameSlot(v, q);
  }

  /** A new empty table in an absent slot changes nothing in the flat map. */
  lemma LookupNewTable(pdir: Level, tables: map<Page, Level>, free: set<Page>, v: Page, t: Page,
                       flags: Flags, q: Page)
    requires WellFormed(pdir, tables, free) && !Present(pdir[Dir(v)]) && t in free
    ensures Lookup(pdir[Dir(v) := Pack(t, flags)], tables[t := seq(LEN, _ => 0)], q) == Lookup(pdir, tables, q)
  {
    PackFacts(t, flags);
  }

  lemma NewTableWellFormed(pdir: Level, tables: map<Page, Level>, free: set<Page>, v: Page,
                           t: Page, flags: Flags)
    requires WellFormed(pdir, tables, free) && !Present(pdir[Dir(v)]) && t in free
    ensures WellFormed(pdir[Dir(v) := Pack(t, flags)], tables[t := seq(LEN, _ => 0)], free - {t})
  {
    PackFacts(t, flags);
  }

  // ---------- the flat map as a specification ----------

  /** What mapping page `v` does to the entry at page `q` of the flat map. */
  ghost predicate MappedTo(was: Option<Entry>, now: Option<Entry>, frame: Page, flags: Flags) {
    if flags % 2 == 0 then now == None
    else
      && now.Some? && FrameOf(now.value) == frame
      && (now == Some(Pack(frame, flags)) || (now == was && ClearAD(now.value) == Pack(frame, flags)))
  }

  /** The mapping is refused: page `v` is mapped already, and not in the same way. */
  predicate Conflict(was: Option<Entry>, frame: Page, flags: Flags) {
    was.Some? && flags % 2 == 1 && ClearAD(was.value) != Pack(frame, flags)
  }

  /** A page that is mapped is taken as it is exactly if frame and flags agree but for accessed and dirty, which must not
      be among the flags asked for. */
  lemma ConflictIff(e: Entry, frame: Page, flags: Flags)
    requires flags % 2 == 1
    ensures !Conflict(Some(e), frame, flags) <==>
            FrameOf(e) == frame && e % 32 == flags % 32 && e / 128 % 32 == flags / 128 && flags / 32 % 4 == 0
  {
    ClearedIs(e);
    PackedIs(frame, flags);
    Digits128(e / 128, e % 32, 32 * frame + flags / 128, flags / 32 % 4, flags % 32);
    SameFrame(e / 128, e % 128);
  }

  lemma ClearedIs(e: Entry)
    ensures ClearAD(e) == 128 * (e / 128) + e % 32 && ClearAD(e) % 32 == e % 32
    ensures e == 128 * (e / 128) + e % 128
  {
    SevenBits(e);
    Low32(4 * (e / 128), e % 32);
  }

  lemma Low32(q: nat, r: nat)
    requires r < 32
    ensures (32 * q + r) % 32 == r
  {
  }

  lemma PackedIs(frame: Page, flags: Flags)
    ensures Pack(frame, flags) == 128 * (32 * frame + flags / 128) + 32 * (flags / 32 % 4) + flags % 32
  {
    assert flags == 32 * (flags / 32) + flags % 32 && flags / 32 == 4 * (flags / 128) + flags / 32 % 4;
  }

  lemma Digits128(a: nat, d: nat, b: nat, c: nat, d': nat)
    requires d < 32 && d' < 32 && c < 4
    ensures 128 * a + d == 128 * b + 32 * c + d' <==> a == b && c == 0 && d == d'
  {
  }

  // ---------- rights ----------

  const READWRITE := 2         // PE_READWRITE and PE_USERMODE
  const USERMODE := 4

  /** The processor grants a right to a mapped page exactly if the directory entry and the table entry both have it. */
  ghost predicate Grants(pdir: Level, tables: map<Page, Level>, q: Page, right: nat)
    requires right == READWRITE || right == USERMODE
  {
    var pte := Lookup(pdir, tables, q);
    pte.Some? && pdir[Dir(q)] / right % 2 == 1 && pte.value / right % 2 == 1
  }

  /** What mapping with `flags` does to a directory slot: one that is present stays, another may be filled. */
  predicate SlotFrom(was: Entry, now: Entry, flags: Flags) {
    now == was || (!Present(was) && FlagsOf(now) == flags)
  }

  ghost predicate SlotsFrom(was: Level, now: Level, flags: Flags) {
    forall i | 0 <= i < LEN :: SlotFrom(was[i], now[i], flags)
  }

  lemma LowFlags(e: nat, right: nat)
    requires right == READWRITE || right == USERMODE
    ensures e / right % 2 == e % 32 / right % 2
  {
    var q, r := e / 32, e % 32;
    assert e / 2 == 16 * q + r / 2 && e / 4 == 8 * q + r / 4;
    Parity(e / 2, 8 * q + r / 2 / 2, r / 2 % 2);
    Parity(e / 4, 4 * q + r / 4 / 2, r / 4 % 2);
  }

  /** A page that has been mapped with a right is granted it exactly if its directory slot was empty or had it too. */
  lemma RightsIff(pdir0: Level, pdir: Level, tables: map<Page, Level>, q: Page, frame: Page, flags: Flags, right: nat)
    requires flags % 2 == 1 && SlotsFrom(pdir0, pdir, flags) && Entered(Lookup(pdir, tables, q), frame, flags)
    requires right == READWRITE || right == USERMODE
    ensures Grants(pdir, tables, q, right) <==>
            var pde := pdir0[Dir(q)]; flags / right % 2 == 1 && (Present(pde) ==> pde / right % 2 == 1)
  {
    var pte := Lookup(pdir, tables, q).value;
    assert SlotFrom(pdir0[Dir(q)], pdir[Dir(q)], flags) && Present(pdir[Dir(q)]);
    EnteredRight(pte, frame, flags, right);
    if FlagsOf(pdir[Dir(q)]) == flags { SlotRight(pdir[Dir(q)], flags, right); }
  }

  lemma EnteredRight(pte: Entry, frame: Page, flags: Flags, right: nat)
    requires ClearAD(pte) == ClearAD(Pack(frame, flags)) && (right == READWRITE || right == USERMODE)
    ensures pte / right % 2 == flags / right % 2
  {
    ClearedIs(pte);
    ClearedIs(Pack(frame, flags));
    PackedLow(frame, flags);
    SameRight(pte, flags, right);
  }

  lemma SlotRight(pde: Entry, flags: Flags, right: nat)
    requires FlagsOf(pde) == flags && (right == READWRITE || right == USERMODE)
    ensures pde / right % 2 == flags / right % 2
  {
    PackedLow(FrameOf(pde), flags);
    SameRight(pde, flags, right);
  }

  lemma SameRight(e: nat, flags: nat, right: nat)
    requires e % 32 == flags % 32 && (right == READWRITE || right == USERMODE)
    ensures e / right % 2 == flags / right % 2
  {
    LowFlags(e, right);
    LowFlags(flags, right);
  }

  lemma PackedLow(frame: Page, flags: Flags)
    ensures Pack(frame, flags) % 32 == flags % 32
  {
    PackedIs(frame, flags);
    Low32(4 * (32 * frame + flags / 128) + flags / 32 % 4, flags % 32);
  }

  /** The entry maps to `frame` with `flags`, up to the bits that the processor sets; without the present
      flag there is none. */
  ghost predicate Entered(now: Option<Entry>, frame: Page, flags: Flags) {
    if flags % 2 == 0 then now == None
    else now.Some? && FrameOf(now.value) == frame && ClearAD(now.value) == ClearAD(Pack(frame, flags))
  }

  lemma MappedEntered(was: Option<Entry>, now: Option<Entry>, frame: Page, flags: Flags)
    requires MappedTo(was, now, frame, flags)
    ensures Entered(now, frame, flags)
  {
    if now.Some? { ClearTwice(now.value); }
  }

  lemma ClearTwice(e: Entry)
    ensures ClearAD(ClearAD(e)) == ClearAD(e)
  {
    SevenBits(e);
    NoMiddle(e / 128, e % 32);
  }

  lemma NoMiddle(a: nat, d: nat)
    requires d < 32
    ensures (128 * a + d) / 32 == 4 * a && (128 * a + d) / 64 == 2 * a
  {
  }

  /** Page `q` after mapping `n` pages from page `v` on to frames from `frame` on. */
  ghost predicate RangeAt(was: Option<Entry>, now: Option<Entry>, v: Page, frame: Page, flags: Flags, n: int, q: Page) {
    if Ahead(v, q) < n then Entered(now, Plus(frame, Ahead(v, q)), flags) else now == was
  }

  /** One more page. */
  lemma RangeStep(was: Option<Entry>, mid: Option<Entry>, now: Option<Entry>, v: Page,
                  frame: Page, flags: Flags, i: nat, q: Page)
    requires RangeAt(was, mid, v, frame, flags, i, q)
    requires if q == Plus(v, i) then MappedTo(mid, now, Plus(frame, i), flags) else now == mid
    ensures RangeAt(was, now, v, frame, flags, i + 1, q)
  {
    SameDistance(v, q, frame, i);
    if q == Plus(v, i) { MappedEntered(mid, now, Plus(frame, i), flags); }
  }

  lemma SameDistance(v: Page, q: Page, frame: Page, i: nat)
    ensures q == Plus(v, i) <==> Ahead(v, q) == i % PAGES
    ensures Plus(frame, i % PAGES) == Plus(frame, i) && (i < PAGES ==> i % PAGES == i) && i % PAGES <= i
    ensures Ahead(v, q) < PAGES
  {
  }

  /** The directory slots without a page table. */
  ghost function Absent(pdir: Level): set<int> {
    set i | 0 <= i < LEN && !Present(pdir[i])
  }

  /** None of the `num` pages from page `v` on is mapped. */
  ghost predicate Unmapped(pdir: Level, tables: map<Page, Level>, v: Page, num: int) {
    forall q: Page :: Ahead(v, q) < num ==> Lookup(pdir, tables, q) == None
  }

  /** How many of the `n` pages from page `v` on lie in those slots. */
  ghost function Leaks(absent: set<int>, v: Page, n: int): (r: nat)
    decreases n
  {
    if n <= 0 then 0 else Leaks(absent, v, n - 1) + if Dir(Plus(v, n - 1)) in absent then 1 else 0
  }

  lemma {:induction false} LeaksGrow(absent: set<int>, v: Page, m: int, n: int)
    requires m <= n
    ensures Leaks(absent, v, m) <= Leaks(absent, v, n)
    decreases n - m
  {
    if m < n { LeaksGrow(absent, v, m, n - 1); }
  }

  /** While `i` pages are unmapped, every one in an absent slot takes a frame and the slot stays absent. */
  ghost predicate Leaked(absent: set<int>, frames: nat, absent': set<int>, frames': nat, v: Page, i: int) {
    absent' == absent && Leaks(absent, v, i) + frames' == frames
  }

  lemma LeakedNext(absent: set<int>, frames: nat, absent': set<int>, frames': nat, v: Page, i: nat, num: int)
    requires Leaked(absent, frames, absent', frames', v, i) && i < num
    ensures frames' == 0 && Dir(Plus(v, i)) in absent' ==> Leaks(absent, v, num) > frames
    ensures var gone := if Dir(Plus(v, i)) in absent' then 1 else 0;
            frames' >= gone ==> Leaked(absent, frames, absent', frames' - gone, v, i + 1)
  {
    LeaksGrow(absent, v, i + 1, num);
  }

  /** Those of the slots that the `n` pages from page `v` on lie in. */
  ghost function Slots(absent: set<int>, v: Page, n: int): (r: set<int>) {
    set d | d in absent && Touched(v, n, d)
  }

  ghost predicate Touched(v: Page, n: int, d: int) {
    exists i: nat | i < n :: Dir(Plus(v, i)) == d
  }

  lemma SlotsGrow(absent: set<int>, v: Page, m: int, n: int)
    requires m <= n
    ensures Slots(absent, v, m) <= Slots(absent, v, n) && |Slots(absent, v, m)| <= |Slots(absent, v, n)|
  {
    forall d | d in Slots(absent, v, m) ensures d in Slots(absent, v, n) {
      var i: nat :| i < m && Dir(Plus(v, i)) == d;
    }
    Smaller(Slots(absent, v, m), Slots(absent, v, n));
  }

  /** One page more. */
  lemma SlotsNext(absent: set<int>, v: Page, i: nat)
    ensures Slots(absent, v, i + 1) == Slots(absent, v, i) + (absent * {Dir(Plus(v, i))})
  {
    var d := Dir(Plus(v, i));
    forall e: int ensures Touched(v, i + 1, e) <==> Touched(v, i, e) || e == d {
      if Touched(v, i + 1, e) {
        var k: nat :| k < i + 1 && Dir(Plus(v, k)) == e;
        assert k < i || e == d;
      }
      if Touched(v, i, e) {
        var k: nat :| k < i && Dir(Plus(v, k)) == e;
        assert k < i + 1;
      }
    }
  }

  lemma Smaller(a: set<int>, b: set<int>)
    requires a <= b
    ensures |a| <= |b|
  {
    assert b == a + (b - a) && a !! (b - a);
  }

  /** Once those slots are filled, unmapping the pages takes no frame. */
  lemma {:induction false} NoLeaks(absent: set<int>, v: Page, n: int, m: int)
    requires n <= m
    ensures Leaks(absent - Slots(absent, v, m), v, n) == 0
    decreases n
  {
    if n > 0 {
      NoLeaks(absent, v, n - 1, m);
      var i: nat := n - 1;
      assert i < m && Touched(v, m, Dir(Plus(v, i)));
    }
  }

  /** While `i` pages are mapped, every absent slot they lie in takes one frame and is there. */
  ghost predicate Filled(absent: set<int>, frames: nat, absent': set<int>, frames': nat, v: Page, i: int) {
    absent' == absent - Slots(absent, v, i) && |Slots(absent, v, i)| + frames' == frames
  }

  lemma FilledNext(absent: set<int>, frames: nat, absent': set<int>, frames': nat, v: Page, i: nat, num: int)
    requires Filled(absent, frames, absent', frames', v, i) && i < num
    ensures var d := Dir(Plus(v, i));
            && (frames' == 0 && d in absent' ==> |Slots(absent, v, num)| > frames)
            && (frames' > 0 && d in absent' ==> Filled(absent, frames, absent' - {d}, frames' - 1, v, i + 1))
            && (d !in absent' ==> Filled(absent, frames, absent', frames', v, i + 1))
  {
    var d := Dir(Plus(v, i));
    SlotsGrow(absent, v, i + 1, num);
    SlotsNext(absent, v, i);
    if d in absent' {
      assert Slots(absent, v, i + 1) == Slots(absent, v, i) + {d} && d !in Slots(absent, v, i);
    } else {
      assert Slots(absent, v, i + 1) == Slots(absent, v, i);
    }
  }

  /** Flags with the accessed or dirty bit: such an entry is not taken for the same when it is mapped again. */
  predicate Own(flags: Flags) { flags / 32 % 2 == 1 || flags / 64 % 2 == 1 }

  lemma OwnCleared(frame: Page, flags: Flags)
    ensures ClearAD(Pack(frame, flags)) == Pack(frame, flags) <==> !Own(flags)
  {
    BitOf(frame * 64, flags / 32, flags % 32, 32, frame * 4096 + flags);
    BitOf(frame * 32, flags / 64, flags % 64, 64, frame * 4096 + flags);
  }

  lemma BitOf(a: nat, b: nat, r: nat, m: nat, e: nat)
    requires m > r && e == (2 * a + b) * m + r
    ensures e / m % 2 == b % 2
  {
    DivBounds(e, m);
    SameRemainder(e / m, 2 * a + b, e % m, r, m);
    assert (2 * a + b) % 2 == b % 2;
  }

  /** No page of the range is mapped otherwise. A range longer than the address space comes around to its own pages. */
  ghost predicate Clear(pdir: Level, tables: map<Page, Level>, v: Page, frame: Page, flags: Flags, num: int) {
    && (forall q: Page :: Ahead(v, q) < num ==> !Conflict(Lookup(pdir, tables, q), Plus(frame, Ahead(v, q)), flags))
    && (num <= PAGES || !Own(flags))
  }

  /** Whether page `i` of a range conflicts, when those before it are mapped. */
  lemma ClearNext(pdir: Level, tables: map<Page, Level>, now: Option<Entry>, v: Page, frame: Page, flags: Flags, i: nat)
    requires flags % 2 == 1
    requires RangeAt(Lookup(pdir, tables, Plus(v, i)), now, v, frame, flags, i, Plus(v, i))
    ensures Clear(pdir, tables, v, frame, flags, i + 1) ==> !Conflict(now, Plus(frame, i), flags)
    ensures Clear(pdir, tables, v, frame, flags, i) && !Conflict(now, Plus(frame, i), flags) ==>
              Clear(pdir, tables, v, frame, flags, i + 1)
  {
    var page := Plus(v, i);
    SameDistance(v, page, frame, i);
    if i < PAGES {
      forall q: Page | Ahead(v, q) < i + 1 ensures Ahead(v, q) < i || q == page { SameDistance(v, q, frame, i); }
    } else {
      PackFacts(Plus(frame, i), flags);
      OwnCleared(Plus(frame, i), flags);
      ClearADFacts(now.value);
      Around(v, i);
    }
  }

  /** A range as long as the address space has every page. */
  lemma Around(v: Page, i: nat)
    requires i >= PAGES
    ensures forall q: Page :: Ahead(v, q) < i
  {
  }

  lemma ClearBefore(pdir: Level, tables: map<Page, Level>, v: Page, frame: Page, flags: Flags, i: int, num: int)
    requires i <= num && Clear(pdir, tables, v, frame, flags, num)
    ensures Clear(pdir, tables, v, frame, flags, i)
  {
  }

  class AddressSpace {
    var pdir: Level
    var tables: map<Page, Level>
    var free: set<Page>

    ghost predicate Valid()
      reads this
    {
      WellFormed(pdir, tables, free)
    }

    ghost function At(q: Page): Option<Entry>
      reads this
    {
      Lookup(pdir, tables, q)
    }

    /** The table of page `v`, created if there is none. */
    method TableFor(v: Page, flags: Flags) returns (ok: bool, t: Page)
      requires Valid()
      modifies this
      ensures ok <==> Present(old(pdir)[Dir(v)]) || old(free) != {}
      ensures Valid() && forall q: Page :: At(q) == old(At(q))
      ensures ok ==> t in tables
      ensures ok && Present(old(pdir)[Dir(v)]) ==> pdir == old(pdir) && tables == old(tables) && t == FrameOf(pdir[Dir(v)])
      ensures SlotsFrom(old(pdir), pdir, flags)
      ensures Absent(pdir) == if flags % 2 == 1 && old(free) != {} then old(Absent(pdir)) - {Dir(v)} else old(Absent(pdir))
      ensures |free| == |old(free)| - if Dir(v) in old(Absent(pdir)) && old(free) != {} then 1 else 0
      ensures ok && !Present(old(pdir)[Dir(v)]) ==>
                && pdir == old(pdir)[Dir(v) := Pack(t, flags)] && t in old(free) && t !in free
                && tables == old(tables)[t := seq(LEN, _ => 0)]
    {
      var pde := pdir[Dir(v)];
      if Present(pde) { return true, FrameOf(pde); }
      if free == {} { return false, 0; }
      t :| t in free;
      ghost var pdir0, tables0, free0 := pdir, tables, free;
      free := free - {t};
      pdir := pdir[Dir(v) := Pack(t, flags)];
      tables := tables[t := seq(LEN, _ => 0)];
      NewTableWellFormed(pdir0, tables0, free0, v, t, flags);
      PackFacts(t, flags);
      forall q: Page ensures At(q) == old(At(q)) { LookupNewTable(pdir0, tables0, free0, v, t, flags, q); }
      ok := true;
    }

    /** do_map: `ok` unless no page is left for a page table or the page is mapped differently. */
    method DoMap(v: Page, frame: Page, flags: Flags, force: bool) returns (ok: bool)
      requires Valid()
      modifies this
      ensures Valid()
      ensures ok <==> (Present(old(pdir)[Dir(v)]) || old(free) != {}) && (force || !Conflict(old(At(v)), frame, flags))
      ensures ok ==> MappedTo(if force then None else old(At(v)), At(v), frame, flags)
      ensures forall q: Page :: q != v || !ok ==> At(q) == old(At(q))
      ensures SlotsFrom(old(pdir), pdir, flags)
      ensures Absent(pdir) == if flags % 2 == 1 && old(free) != {} then old(Absent(pdir)) - {Dir(v)} else old(Absent(pdir))
      ensures |free| == |old(free)| - if Dir(v) in old(Absent(pdir)) && old(free) != {} then 1 else 0
    {
      var t;
      ok, t := TableFor(v, flags);
      if !ok { return; }
      var pte := tables[t][Tab(v)];
      PackFacts(frame, flags);
      ClearADFacts(pte);
      if !force && Present(pte) && flags % 2 == 1 {
        ok := ClearAD(pte) == Pack(frame, flags);
      } else {
        ghost var tables0 := tables;
        tables := tables[t := tables[t][Tab(v) := Pack(frame, flags)]];
        if Present(pdir[Dir(v)]) {
          ghost var now := if flags % 2 == 1 then Some(Pack(frame, flags)) else None;
          forall q: Page ensures At(q) == if q == v then now else old(At(q)) {
            LookupWrite(pdir, tables0, free, v, Pack(frame, flags), q);
          }
        }
      }
    }

    /** The first `i` pages of a range are mapped. */
    ghost predicate MappedUpTo(pdir0: Level, tables0: map<Page, Level>, v: Page, frame: Page, flags: Flags, i: int)
      reads this
    {
      forall q: Page :: RangeAt(Lookup(pdir0, tables0, q), At(q), v, frame, flags, i, q)
    }

    /** What `i` rounds of the loop have used up: a frame for every slot filled, or lost on every page. */
    ghost predicate UsedUp(absent: set<int>, frames: nat, v: Page, flags: Flags, i: int)
      reads this
    {
      if flags % 2 == 1 then Filled(absent, frames, Absent(pdir), |free|, v, i)
      else Leaked(absent, frames, Absent(pdir), |free|, v, i)
    }

    /** One round of the loop of vm_map_range. */
    method MapNext(v: Page, frame: Page, flags: Flags, i: nat, ghost num: int, ghost pdir0: Level,
                   ghost tables0: map<Page, Level>, ghost absent: set<int>, ghost frames: nat)
      returns (ok: bool)
      requires Valid() && i < num && MappedUpTo(pdir0, tables0, v, frame, flags, i)
      requires UsedUp(absent, frames, v, flags, i) && (flags % 2 == 1 ==> Clear(pdir0, tables0, v, frame, flags, i))
      modifies this
      ensures Valid() && SlotsFrom(old(pdir), pdir, flags)
      ensures ok ==> MappedUpTo(pdir0, tables0, v, frame, flags, i + 1) && UsedUp(absent, frames, v, flags, i + 1)
      ensures flags % 2 == 1 ==>
                if ok then Clear(pdir0, tables0, v, frame, flags, i + 1)
                else |Slots(absent, v, num)| > frames || !Clear(pdir0, tables0, v, frame, flags, num)
      ensures flags % 2 == 0 && !ok ==> Leaks(absent, v, num) > frames && free == {}
    {
      var page := Plus(v, i);
      ghost var pdir1, tables1 := pdir, tables;
      assert RangeAt(Lookup(pdir0, tables0, page), At(page), v, frame, flags, i, page);
      if flags % 2 == 0 {
        LeakedNext(absent, frames, Absent(pdir), |free|, v, i, num);
      } else {
        FilledNext(absent, frames, Absent(pdir), |free|, v, i, num);
        ClearNext(pdir0, tables0, At(page), v, frame, flags, i);
      }
      ok := DoMap(page, Plus(frame, i), flags, false);
      if ok {
        forall q: Page ensures RangeAt(Lookup(pdir0, tables0, q), At(q), v, frame, flags, i + 1, q) {
          assert RangeAt(Lookup(pdir0, tables0, q), Lookup(pdir1, tables1, q), v, frame, flags, i, q);
          RangeStep(Lookup(pdir0, tables0, q), Lookup(pdir1, tables1, q), At(q), v, frame, flags, i, q);
        }
      } else if Clear(pdir0, tables0, v, frame, flags, num) {
        ClearBefore(pdir0, tables0, v, frame, flags, i + 1, num);
      }
    }

    /** vm_map_range of `num` pages; addresses wrap around the 32-bit space. With the present flag it succeeds exactly
        if no page is mapped otherwise and there is a frame for every missing table; without it, a frame for every
        page without a table. */
    method MapRange(v: Page, frame: Page, flags: Flags, num: int) returns (ok: bool)
      requires Valid()
      modifies this
      ensures Valid() && (num <= 0 ==> ok) && SlotsFrom(old(pdir), pdir, flags)
      ensures ok ==> MappedUpTo(old(pdir), old(tables), v, frame, flags, num)
      ensures ok ==> UsedUp(old(Absent(pdir)), |old(free)|, v, flags, num)
      ensures flags % 2 == 0 ==> (ok <==> Leaks(old(Absent(pdir)), v, num) <= |old(free)|) && (!ok ==> free == {})
      ensures flags % 2 == 1 ==> (ok <==> Clear(old(pdir), old(tables), v, frame, flags, num)
                                          && |Slots(old(Absent(pdir)), v, num)| <= |old(free)|)
    {
      ok := MapAll(v, frame, flags, num, pdir, tables, Absent(pdir), |free|);
    }

    /** Its loop. */
    method MapAll(v: Page, frame: Page, flags: Flags, num: int, ghost pdir0: Level, ghost tables0: map<Page, Level>,
                  ghost absent: set<int>, ghost frames: nat) returns (ok: bool)
      requires Valid() && pdir == pdir0 && tables == tables0 && absent == Absent(pdir0) && frames == |free|
      modifies this
      ensures Valid() && (num <= 0 ==> ok) && SlotsFrom(pdir0, pdir, flags)
      ensures ok ==> MappedUpTo(pdir0, tables0, v, frame, flags, num) && UsedUp(absent, frames, v, flags, num)
      ensures flags % 2 == 0 ==> (ok <==> Leaks(absent, v, num) <= frames) && (!ok ==> free == {})
      ensures flags % 2 == 1 ==> (ok <==> Clear(pdir0, tables0, v, frame, flags, num) && |Slots(absent, v, num)| <= frames)
    {
      var i: nat := 0;
      ok := true;
      while i < num
        invariant i <= (if num >= 0 then num else 0) && ok && Valid() && SlotsFrom(pdir0, pdir, flags)
        invariant MappedUpTo(pdir0, tables0, v, frame, flags, i) && UsedUp(absent, frames, v, flags, i)
        invariant flags % 2 == 1 ==> Clear(pdir0, tables0, v, frame, flags, i)
      {
        ok := MapNext(v, frame, flags, i, num, pdir0, tables0, absent, frames);
        if !ok { return; }
        i := i + 1;
      }
      if num < 0 {
        NothingMapped(pdir0, tables0, v, frame, flags, num);
        NothingUsed(absent, frames, v, flags, num);
      } else {
        assert i == num;
      }
    }

    lemma NothingUsed(absent: set<int>, frames: nat, v: Page, flags: Flags, num: int)
      requires num < 0 && UsedUp(absent, frames, v, flags, 0)
      ensures UsedUp(absent, frames, v, flags, num) && Leaks(absent, v, num) == 0 && Slots(absent, v, num) == {}
    {
    }

    lemma NothingMapped(pdir0: Level, tables0: map<Page, Level>, v: Page, frame: Page, flags: Flags, num: int)
      requires num < 0 && MappedUpTo(pdir0, tables0, v, frame, flags, 0)
      ensures MappedUpTo(pdir0, tables0, v, frame, flags, num)
    {
      forall q: Page ensures RangeAt(Lookup(pdir0, tables0, q), At(q), v, frame, flags, num, q) {
        assert RangeAt(Lookup(pdir0, tables0, q), At(q), v, frame, flags, 0, q);
      }
    }

    /** vm_unmap_range: map every page to nothing. Every page in an absent slot takes a frame for good, and when no
        frame is left for one, the kernel panics. */
    method UnmapRange(v: Page, num: int) returns (ok: bool)
      requires Valid()
      modifies this
      ensures Valid()
      ensures ok <==> Leaks(old(Absent(pdir)), v, num) <= |old(free)|
      ensures |free| == if ok then |old(free)| - Leaks(old(Absent(pdir)), v, num) else 0
      ensures ok ==> forall q: Page :: At(q) == if Ahead(v, q) < num then None else old(At(q))
    {
      ok := MapRange(v, 0, 0, num);
      if ok {
        forall q: Page ensures At(q) == if Ahead(v, q) < num then None else old(At(q)) {
          assert RangeAt(Lookup(old(pdir), old(tables), q), At(q), v, 0, 0, num, q);
        }
      }
    }
  }

  /** Two pages of an empty slot, mapped one after the other, first for the kernel and then for user mode: user mode is not
      granted. */
  method UserBehindKernel(a: AddressSpace, v: Page, w: Page, frame: Page, other: Page) returns (ok: bool)
    requires a.Valid() && v != w && Dir(v) == Dir(w) && !Present(a.pdir[Dir(v)]) && a.free != {}
    modifies a
    ensures ok && a.At(w) == Some(Pack(other, 1 + READWRITE + USERMODE)) && !Grants(a.pdir, a.tables, w, USERMODE)
  {
    ghost var was := a.pdir;
    ok := a.DoMap(v, frame, 1 + READWRITE, false);
    ghost var pde := a.pdir[Dir(v)];
    assert Dir(v) !in Absent(a.pdir) && SlotFrom(was[Dir(v)], pde, 1 + READWRITE);
    SlotRight(pde, 1 + READWRITE, USERMODE);
    ghost var pdir1 := a.pdir;
    ok := a.DoMap(w, other, 1 + READWRITE + USERMODE, false);
    PackFacts(other, 1 + READWRITE + USERMODE);
    RightsIff(pdir1, a.pdir, a.tables, w, other, 1 + READWRITE + USERMODE, USERMODE);
  }
}
