/** The heap as its callers see it, over every sequence of calls of kernel/mm/kmalloc.c: what was asked for
    and not given back is what is in use. */
module HeapLedger {
  import opened Common
  import opened HeapModel

  /** What the callers hold: the size asked for, by pointer. */
  type Ledger = map<nat, nat>

  /** The ledger after a call, from the call and the pointer it returns alone. */
  function Booked(l: Ledger, c: Call, p: nat): Ledger {
    match c
    case MallocCall(size, _) => if size == 0 then l else l[p := size]
    case FreeCall(ptr) => l - {ptr}
    case ReallocCall(ptr, size, _) =>
      if ptr == 0 then (if size == 0 then l else l[p := size])
      else if size == 0 then l - {ptr}
      else if ptr !in l then l
      else (l - {ptr})[p := size]
  }

  /** The pointer that a call returns. */
  function Returned(h: Heap, mem: Memory, c: Call): nat {
    match c
    case MallocCall(size, chunk) => if size == 0 then 0 else Malloc(h, size, chunk).used[0].ptr
    case FreeCall(_) => 0
    case ReallocCall(ptr, size, chunk) => Realloc(h, mem, ptr, size, chunk).2
  }

  /** The blocks in use are those in the ledger, each with the size asked for. */
  ghost predicate Matches(l: Ledger, h: Heap) {
    && (forall i | 0 <= i < |h.used| :: MatchesAt(l, h.used[i]))
    && (forall p | p in l :: At(h.used, p) < |h.used|)
  }

  ghost predicate MatchesAt(l: Ledger, b: Block) { b.ptr in l && l[b.ptr] == b.size }

  lemma Found(bs: seq<Block>, p: nat, i: nat)
    requires i < |bs| && bs[i].ptr == p
    ensures At(bs, p) <= i
  {
  }

  lemma MallocMatches(l: Ledger, h: Heap, granted: Region, size: nat, chunk: nat)
    requires Matches(l, h) && HeapInv(h, granted) && size > 0 && Fresh(granted, chunk, Pages(size) * PAGE_SIZE)
    ensures var h1 := Malloc(h, size, chunk); Matches(l[h1.used[0].ptr := size], h1)
  {
    MallocInv(h, granted, size, chunk);
    var h1 := Malloc(h, size, chunk);
    var p := h1.used[0].ptr;
    forall i | 0 <= i < |h1.used| ensures MatchesAt(l[p := size], h1.used[i]) {
      if i > 0 {
        assert h1.used[i] == h1.used[1..][i - 1] == h.used[i - 1];
        assert MatchesAt(l, h.used[i - 1]) && Apart(h1.used[0], h.used[i - 1]);
        assert Inside(h.used[i - 1], granted);
      }
    }
    forall q | q in l[p := size] ensures At(h1.used, q) < |h1.used| {
      if q == p {
        Found(h1.used, q, 0);
      } else {
        assert h1.used[1..][At(h.used, q)].ptr == q;
        Found(h1.used, q, At(h.used, q) + 1);
      }
    }
  }

  lemma FreeMatches(l: Ledger, h: Heap, granted: Region, ptr: nat)
    requires Matches(l, h) && HeapInv(h, granted)
    ensures Matches(l - {ptr}, Free(h, ptr))
  {
    var k := At(h.used, ptr);
    if k < |h.used| {
      var rest := Without(h.used, k);
      forall i | 0 <= i < |rest| ensures MatchesAt(l - {ptr}, rest[i]) {
        var j := if i < k then i else i + 1;
        assert rest[i] == h.used[j] && MatchesAt(l, h.used[j]);
        AtUnique(h, granted, j);
      }
      forall q | q in l - {ptr} ensures At(rest, q) < |rest| { StillThere(h.used, k, q); }
    } else {
      forall i | 0 <= i < |h.used| ensures MatchesAt(l - {ptr}, h.used[i]) { assert MatchesAt(l, h.used[i]); }
    }
  }

  lemma StillThere(bs: seq<Block>, k: nat, q: nat)
    requires k < |bs| && bs[k].ptr != q && At(bs, q) < |bs|
    ensures At(Without(bs, k), q) < |bs| - 1
  {
    var j := At(bs, q);
    Found(Without(bs, k), q, if j < k then j else j - 1);
  }

  /** A call that gives its caller nothing: for no bytes, or to change the size of what the caller does not hold. */
  predicate Nothing(l: Ledger, c: Call) {
    c.FreeCall? || c.size == 0 || (c.ReallocCall? && c.ptr != 0 && c.ptr !in l)
  }

  /** Exactly those return a null pointer; any other returns a pointer that no caller holds. */
  lemma NullIff(l: Ledger, h: Heap, mem: Memory, granted: Region, c: Call)
    requires Matches(l, h) && HeapInv(h, granted)
    requires Allocates(h, c) ==> Fresh(granted, c.chunk, Pages(c.size) * PAGE_SIZE)
    ensures Returned(h, mem, c) == 0 <==> Nothing(l, c)
    ensures Returned(h, mem, c) !in l
  {
    forall p | p in l ensures p > 0 { assert Inside(h.used[At(h.used, p)], granted); }
    if c.ReallocCall? { Listed(l, h, c.ptr); }
    if Allocates(h, c) {
      MallocInv(h, granted, c.size, c.chunk);
      var h1 := Malloc(h, c.size, c.chunk);
      assert Inside(h1.used[0], GrantedBy(h, granted, c.size, c.chunk));
      forall p | p in l ensures p != h1.used[0].ptr { NewPointer(h, granted, p, c.size, c.chunk); }
    }
  }

  /** One call: the ledger of the callers and the blocks in use go on matching. */
  lemma CallMatches(l: Ledger, h: Heap, mem: Memory, granted: Region, c: Call)
    requires Matches(l, h) && HeapInv(h, granted)
    requires Allocates(h, c) ==> Fresh(granted, c.chunk, Pages(c.size) * PAGE_SIZE)
    ensures Matches(Booked(l, c, Returned(h, mem, c)), After(h, mem, c).0)
  {
    match c
    case MallocCall(size, chunk) => if size > 0 { MallocMatches(l, h, granted, size, chunk); }
    case FreeCall(ptr) => FreeMatches(l, h, granted, ptr);
    case ReallocCall(ptr, size, chunk) =>
      Listed(l, h, ptr);
      if ptr != 0 && size == 0 {
        FreeMatches(l, h, granted, ptr);
      } else if size > 0 && (ptr == 0 || ptr in l) {
        MallocMatches(l, h, granted, size, chunk);
        if ptr != 0 { ReallocMatches(l, h, granted, ptr, size, chunk); }
      }
  }

  lemma Listed(l: Ledger, h: Heap, ptr: nat)
    requires Matches(l, h)
    ensures At(h.used, ptr) < |h.used| <==> ptr in l
  {
    var k := At(h.used, ptr);
    if k < |h.used| { assert MatchesAt(l, h.used[k]); }
  }

  lemma ReallocMatches(l: Ledger, h: Heap, granted: Region, ptr: nat, size: nat, chunk: nat)
    requires Matches(l, h) && HeapInv(h, granted) && size > 0 && Fresh(granted, chunk, Pages(size) * PAGE_SIZE)
    requires ptr in l
    ensures var h1 := Malloc(h, size, chunk); Matches((l - {ptr})[h1.used[0].ptr := size], Free(h1, ptr))
  {
    NewPointer(h, granted, ptr, size, chunk);
    MallocMatches(l, h, granted, size, chunk);
    MallocInv(h, granted, size, chunk);
    var h1 := Malloc(h, size, chunk);
    BookThenFree(l, h1, GrantedBy(h, granted, size, chunk), ptr, h1.used[0].ptr, size);
  }

  lemma BookThenFree(l: Ledger, h: Heap, granted: Region, ptr: nat, p: nat, size: nat)
    requires Matches(l[p := size], h) && HeapInv(h, granted) && p != ptr
    ensures Matches((l - {ptr})[p := size], Free(h, ptr))
  {
    FreeMatches(l[p := size], h, granted, ptr);
    assert l[p := size] - {ptr} == (l - {ptr})[p := size];
  }

  /** A new block is not at the address of a block in use. */
  lemma NewPointer(h: Heap, granted: Region, ptr: nat, size: nat, chunk: nat)
    requires HeapInv(h, granted) && size > 0 && Fresh(granted, chunk, Pages(size) * PAGE_SIZE)
    requires At(h.used, ptr) < |h.used|
    ensures Malloc(h, size, chunk).used[0].ptr != ptr
  {
    var k := At(h.used, ptr);
    MallocInv(h, granted, size, chunk);
    assert Apart(Malloc(h, size, chunk).used[0], h.used[k]) && Inside(h.used[k], granted);
  }

  /** The ledger after a sequence of calls. */
  function BookedRun(l: Ledger, h: Heap, mem: Memory, calls: seq<Call>): Ledger
    decreases calls
  {
    if calls == [] then l
    else
      var (h', mem') := After(h, mem, calls[0]);
      BookedRun(Booked(l, calls[0], Returned(h, mem, calls[0])), h', mem', calls[1..])
  }

  /** After every sequence of calls, the blocks in use are exactly what was asked for and not given back,
      each with the size asked for. */
  lemma {:induction false} RunMatches(l: Ledger, h: Heap, mem: Memory, granted: Region, calls: seq<Call>)
    requires Matches(l, h) && HeapInv(h, granted) && FreshChunks(h, mem, granted, calls)
    ensures Matches(BookedRun(l, h, mem, calls), RunCalls(h, mem, calls))
    decreases calls
  {
    if calls != [] {
      var c := calls[0];
      CallMatches(l, h, mem, granted, c);
      AfterInv(h, mem, granted, c);
      var (h', mem') := After(h, mem, c);
      RunMatches(Booked(l, c, Returned(h, mem, c)), h', mem', GrantedAfter(h, granted, c), calls[1..]);
    }
  }

  // ---------- contents ----------

  /** The memory after a sequence of calls, if nobody but krealloc writes to it. */
  function RunMemory(h: Heap, mem: Memory, calls: seq<Call>): Memory
    decreases calls
  {
    if calls == [] then mem else RunMemory(After(h, mem, calls[0]).0, After(h, mem, calls[0]).1, calls[1..])
  }

  /** The call gives back or replaces the block at `p`. */
  predicate Names(c: Call, p: nat) { !c.MallocCall? && c.ptr == p }

  ghost predicate Held(mem: Memory, mem': Memory, b: Block) {
    forall a: nat | b.ptr <= a < b.ptr + b.size :: KeptAt(mem, mem', a)
  }

  lemma OthersStay(bs: seq<Block>, k: nat, b: Block)
    requires k < |bs| && b in bs && bs[k] != b
    ensures b in Without(bs, k)
  {
    var j :| 0 <= j < |bs| && bs[j] == b;
    assert Without(bs, k)[if j < k then j else j - 1] == b;
  }

  lemma FreeKeeps(h: Heap, ptr: nat, b: Block)
    requires b in h.used && ptr != b.ptr
    ensures b in Free(h, ptr).used
  {
    var k := At(h.used, ptr);
    if k < |h.used| { OthersStay(h.used, k, b); }
  }

  lemma ReallocKeeps(h: Heap, mem: Memory, granted: Region, ptr: nat, size: nat, chunk: nat, b: Block)
    requires HeapInv(h, granted) && size > 0 && At(h.used, ptr) < |h.used| && b in h.used && ptr != b.ptr
    requires Fresh(granted, chunk, Pages(size) * PAGE_SIZE)
    ensures var r := Realloc(h, mem, ptr, size, chunk); b in r.0.used && Held(mem, r.1, b)
  {
    var k := At(h.used, ptr);
    ReallocInv(h, granted, mem, k, size, chunk);
    ReallocKeepsBytes(h, granted, mem, k, size, chunk);
    OthersStay(h.used, k, b);
  }

  /** A call leaves a block that it does not name in use, with its bytes. */
  lemma CallKeeps(h: Heap, mem: Memory, granted: Region, c: Call, b: Block)
    requires HeapInv(h, granted) && b in h.used && !Names(c, b.ptr)
    requires Allocates(h, c) ==> Fresh(granted, c.chunk, Pages(c.size) * PAGE_SIZE)
    ensures b in After(h, mem, c).0.used && Held(mem, After(h, mem, c).1, b)
  {
    match c
    case MallocCall(size, chunk) => if size > 0 { MallocKeeps(h, granted, size, chunk, b); }
    case FreeCall(ptr) => FreeKeeps(h, ptr, b);
    case ReallocCall(ptr, size, chunk) =>
      if size == 0 {
        if ptr != 0 { FreeKeeps(h, ptr, b); }
      } else if ptr == 0 {
        MallocKeeps(h, granted, size, chunk, b);
      } else if Allocates(h, c) {
        ReallocKeeps(h, mem, granted, ptr, size, chunk, b);
      }
  }

  lemma MallocKeeps(h: Heap, granted: Region, size: nat, chunk: nat, b: Block)
    requires HeapInv(h, granted) && size > 0 && b in h.used && Fresh(granted, chunk, Pages(size) * PAGE_SIZE)
    ensures b in Malloc(h, size, chunk).used
  {
    MallocInv(h, granted, size, chunk);
    assert b in Malloc(h, size, chunk).used[1..];
  }

  /** Over every sequence of calls, a block that is neither given back nor replaced stays in use and keeps its bytes. */
  lemma {:induction false} RunKeeps(h: Heap, mem: Memory, granted: Region, calls: seq<Call>, b: Block)
    requires HeapInv(h, granted) && FreshChunks(h, mem, granted, calls) && b in h.used
    requires forall c | c in calls :: !Names(c, b.ptr)
    ensures b in RunCalls(h, mem, calls).used && Held(mem, RunMemory(h, mem, calls), b)
    decreases calls
  {
    if calls != [] {
      var c := calls[0];
      CallKeeps(h, mem, granted, c, b);
      AfterInv(h, mem, granted, c);
      var (h', mem') := After(h, mem, c);
      RunKeeps(h', mem', GrantedAfter(h, granted, c), calls[1..], b);
      HeldOn(mem, mem', RunMemory(h', mem', calls[1..]), b);
    }
  }

  lemma HeldOn(mem: Memory, mem': Memory, mem'': Memory, b: Block)
    requires Held(mem, mem', b) && Held(mem', mem'', b)
    ensures Held(mem, mem'', b)
  {
    forall a: nat | b.ptr <= a < b.ptr + b.size ensures KeptAt(mem, mem'', a) {
      assert KeptAt(mem, mem', a) && KeptAt(mem', mem'', a);
    }
  }
}
