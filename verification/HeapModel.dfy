/** kernel/mm/kmalloc.c on values: the used and the free list as sequences of blocks. */
module HeapModel {
  import opened Common

  datatype Block = Block(ptr: nat, size: nat)

  datatype Heap = Heap(used: seq<Block>, free: seq<Block>)

  /** create_node takes its node from the front of the free list if there is one; the block that node
      described is no longer on any list. */
  function Recycled(free: seq<Block>): seq<Block> {
    if free == [] then [] else free[1..]
  }

  function CreateUsed(h: Heap, b: Block): Heap { Heap([b] + h.used, Recycled(h.free)) }

  function CreateFree(h: Heap, b: Block): Heap { Heap(h.used, [b] + Recycled(h.free)) }

  function Without(bs: seq<Block>, k: nat): seq<Block>
    requires k < |bs|
  {
    bs[..k] + bs[k + 1..]
  }

  /** The first free block of at least this size, `|free|` if there is none. */
  function Fit(free: seq<Block>, size: nat): (k: nat)
    ensures k <= |free|
    ensures k < |free| ==> free[k].size >= size
    ensures forall j | 0 <= j < k :: free[j].size < size
  {
    if free == [] then 0 else if free[0].size >= size then 0 else 1 + Fit(free[1..], size)
  }

  /** The place of the block at `ptr`, `|bs|` if there is none. */
  function At(bs: seq<Block>, ptr: nat): (k: nat)
    ensures k <= |bs|
    ensures k < |bs| ==> bs[k].ptr == ptr
    ensures forall j | 0 <= j < k :: bs[j].ptr != ptr
  {
    if bs == [] then 0 else if bs[0].ptr == ptr then 0 else 1 + At(bs[1..], ptr)
  }

  /** The least number of pages that hold so many bytes. */
  function Pages(size: nat): (n: nat)
    ensures size <= n * PAGE_SIZE < size + PAGE_SIZE
  {
    size / PAGE_SIZE + if size % PAGE_SIZE != 0 then 1 else 0
  }

  /** kmalloc of `size` bytes, with `chunk` the memory km_alloc_range would give; the new block comes first
      in the used list. */
  function Malloc(h: Heap, size: nat, chunk: nat): (r: Heap)
    requires size > 0
    ensures r.used != []
  {
    var k := Fit(h.free, size);
    if k == |h.free| then
      var total := Pages(size) * PAGE_SIZE;
      var h1 := CreateUsed(h, Block(chunk, size));
      if total > size then CreateFree(h1, Block(chunk + size, total - size)) else h1
    else
      var b := h.free[k];
      var h1 := Heap([Block(b.ptr, size)] + h.used, Without(h.free, k));
      if b.size > size then CreateFree(h1, Block(b.ptr + size, b.size - size)) else h1
  }

  /** kfree: the block goes to the front of the free list; an unknown pointer is ignored. */
  function Free(h: Heap, ptr: nat): Heap {
    var k := At(h.used, ptr);
    if k == |h.used| then h else Heap(Without(h.used, k), [h.used[k]] + h.free)
  }

  // ---------- the invariant ----------

  /** Which addresses the heap has been given. */
  type Region = nat -> bool

  predicate Apart(a: Block, b: Block) {
    a.ptr + a.size <= b.ptr || b.ptr + b.size <= a.ptr
  }

  ghost predicate Inside(b: Block, granted: Region) {
    0 < b.ptr && 0 < b.size && forall a: nat | b.ptr <= a < b.ptr + b.size :: granted(a)
  }

  ghost predicate AllInside(bs: seq<Block>, granted: Region) {
    forall i | 0 <= i < |bs| :: Inside(bs[i], granted)
  }

  ghost predicate PairsApart(bs: seq<Block>) {
    forall i, j | 0 <= i < j < |bs| :: Apart(bs[i], bs[j])
  }

  ghost predicate ApartFrom(b: Block, bs: seq<Block>) {
    forall i | 0 <= i < |bs| :: Apart(b, bs[i])
  }

  ghost predicate ListsApart(xs: seq<Block>, ys: seq<Block>) {
    forall i, j | 0 <= i < |xs| && 0 <= j < |ys| :: Apart(xs[i], ys[j])
  }

  /** No block is empty, all lie in memory the heap was given, and no two overlap. */
  ghost predicate HeapInv(h: Heap, granted: Region) {
    && AllInside(h.used, granted) && AllInside(h.free, granted)
    && PairsApart(h.used) && PairsApart(h.free) && ListsApart(h.used, h.free)
  }

  /** `chunk` is memory for `n` bytes that the heap does not have yet. */
  ghost predicate Fresh(granted: Region, chunk: nat, n: nat) {
    0 < chunk && forall a: nat | chunk <= a < chunk + n :: !granted(a)
  }

  ghost function Grant(granted: Region, chunk: nat, n: nat): Region {
    (a: nat) => granted(a) || chunk <= a < chunk + n
  }

  // ---------- every operation keeps it ----------

  lemma GrantKeeps(h: Heap, granted: Region, chunk: nat, n: nat)
    requires HeapInv(h, granted)
    ensures HeapInv(h, Grant(granted, chunk, n))
  {
  }

  lemma CreateFreeInv(h: Heap, granted: Region, b: Block)
    requires HeapInv(h, granted) && Inside(b, granted) && ApartFrom(b, h.used) && ApartFrom(b, h.free)
    ensures HeapInv(CreateFree(h, b), granted)
  {
  }

  lemma CreateUsedInv(h: Heap, granted: Region, b: Block)
    requires HeapInv(h, granted) && Inside(b, granted) && ApartFrom(b, h.used) && ApartFrom(b, h.free)
    ensures HeapInv(CreateUsed(h, b), granted)
  {
  }

  /** A block in new memory is apart from all others. */
  lemma NewApart(bs: seq<Block>, granted: Region, chunk: nat, n: nat, b: Block)
    requires AllInside(bs, granted) && Fresh(granted, chunk, n)
    requires chunk <= b.ptr && b.ptr + b.size <= chunk + n && b.size > 0
    ensures ApartFrom(b, bs)
  {
    forall i | 0 <= i < |bs| ensures Apart(b, bs[i]) {
      var c := bs[i];
      assert Inside(c, granted);
      var a := if b.ptr < c.ptr then c.ptr else b.ptr;
      assert c.ptr <= a < c.ptr + c.size ==> granted(a);
    }
  }

  /** Taking block `k` off the free list. */
  lemma TakeInv(h: Heap, granted: Region, k: nat)
    requires HeapInv(h, granted) && k < |h.free|
    ensures HeapInv(Heap(h.used, Without(h.free, k)), granted)
    ensures ApartFrom(h.free[k], h.used) && ApartFrom(h.free[k], Without(h.free, k))
    ensures Inside(h.free[k], granted)
  {
  }

  /** A part of a block is apart from whatever the block is apart from. */
  lemma PartApart(b: Block, part: Block, bs: seq<Block>, granted: Region)
    requires Inside(b, granted) && ApartFrom(b, bs)
    requires b.ptr <= part.ptr && part.ptr + part.size <= b.ptr + b.size && part.size > 0
    ensures ApartFrom(part, bs) && Inside(part, granted)
  {
  }

  /** The memory the heap has after a request: a new chunk if no free block was large enough. */
  ghost function GrantedBy(h: Heap, granted: Region, size: nat, chunk: nat): Region {
    if Fit(h.free, size) == |h.free| then Grant(granted, chunk, Pages(size) * PAGE_SIZE) else granted
  }

  lemma MallocNewInv(h: Heap, granted: Region, size: nat, chunk: nat)
    requires HeapInv(h, granted) && size > 0 && Fit(h.free, size) == |h.free|
    requires Fresh(granted, chunk, Pages(size) * PAGE_SIZE)
    ensures HeapInv(Malloc(h, size, chunk), Grant(granted, chunk, Pages(size) * PAGE_SIZE))
  {
    var total := Pages(size) * PAGE_SIZE;
    var g, b, rest := Grant(granted, chunk, total), Block(chunk, size), Block(chunk + size, total - size);
    NewApart(h.used, granted, chunk, total, b);
    NewApart(h.free, granted, chunk, total, b);
    GrantKeeps(h, granted, chunk, total);
    CreateUsedInv(h, g, b);
    if total > size {
      var h1 := CreateUsed(h, b);
      NewApart(h.used, granted, chunk, total, rest);
      NewApart(h.free, granted, chunk, total, rest);
      assert ApartFrom(rest, h1.used);
      CreateFreeInv(h1, g, rest);
    }
  }

  /** A block that lies apart from all others may be used in part and be free in part. */
  lemma SplitInv(h: Heap, granted: Region, b: Block, size: nat)
    requires HeapInv(h, granted) && 0 < size <= b.size && Inside(b, granted) && ApartFrom(b, h.used) && ApartFrom(b, h.free)
    ensures var h1 := Heap([Block(b.ptr, size)] + h.used, h.free);
            && HeapInv(h1, granted)
            && (b.size > size ==> HeapInv(CreateFree(h1, Block(b.ptr + size, b.size - size)), granted))
  {
    var front, rest := Block(b.ptr, size), Block(b.ptr + size, b.size - size);
    PartApart(b, front, h.used, granted);
    PartApart(b, front, h.free, granted);
    var h1 := Heap([front] + h.used, h.free);
    assert HeapInv(h1, granted);
    if b.size > size {
      PartApart(b, rest, h.used, granted);
      PartApart(b, rest, h.free, granted);
      assert ApartFrom(rest, h1.used);
      CreateFreeInv(h1, granted, rest);
    }
  }

  lemma MallocFitInv(h: Heap, granted: Region, size: nat, chunk: nat)
    requires HeapInv(h, granted) && size > 0 && Fit(h.free, size) < |h.free|
    ensures HeapInv(Malloc(h, size, chunk), granted)
  {
    var k := Fit(h.free, size);
    var b := h.free[k];
    TakeInv(h, granted, k);
    var h0 := Heap(h.used, Without(h.free, k));
    SplitInv(h0, granted, b, size);
  }

  /** kmalloc keeps the invariant; the new block has the size asked for and overlaps no block that was in use. */
  lemma MallocInv(h: Heap, granted: Region, size: nat, chunk: nat)
    requires HeapInv(h, granted) && size > 0 && Fresh(granted, chunk, Pages(size) * PAGE_SIZE)
    ensures var h' := Malloc(h, size, chunk);
            && HeapInv(h', GrantedBy(h, granted, size, chunk))
            && h'.used[0].size == size && h'.used[1..] == h.used && ApartFrom(h'.used[0], h.used)
  {
    if Fit(h.free, size) == |h.free| { MallocNewInv(h, granted, size, chunk); } else { MallocFitInv(h, granted, size, chunk); }
    var h' := Malloc(h, size, chunk);
    assert h'.used == [h'.used[0]] + h.used;
    forall i | 0 <= i < |h.used| ensures Apart(h'.used[0], h.used[i]) { assert h'.used[i + 1] == h.used[i]; }
  }

  lemma FreeInv(h: Heap, granted: Region, ptr: nat)
    requires HeapInv(h, granted)
    ensures HeapInv(Free(h, ptr), granted)
  {
    var k := At(h.used, ptr);
    if k < |h.used| {
      var b, rest := h.used[k], Without(h.used, k);
      assert PairsApart(rest) && ApartFrom(b, rest) && ListsApart(rest, h.free) && ApartFrom(b, h.free);
    }
  }

  /** A pointer in use names one block. */
  lemma AtUnique(h: Heap, granted: Region, k: nat)
    requires HeapInv(h, granted) && k < |h.used|
    ensures At(h.used, h.used[k].ptr) == k
  {
    var j := At(h.used, h.used[k].ptr);
    assert Inside(h.used[j], granted) && Inside(h.used[k], granted);
    assert j <= k;
  }

  // ---------- bytes ----------

  function Bytes(bs: seq<Block>): nat {
    if bs == [] then 0 else bs[0].size + Bytes(bs[1..])
  }

  function Total(h: Heap): nat { Bytes(h.used) + Bytes(h.free) }

  /** The size of the block that a recycled node takes with it. */
  function Front(free: seq<Block>): nat {
    if free == [] then 0 else free[0].size
  }

  lemma BytesCons(b: Block, bs: seq<Block>)
    ensures Bytes([b] + bs) == b.size + Bytes(bs)
  {
    assert ([b] + bs)[1..] == bs;
  }

  lemma {:induction false} BytesWithout(bs: seq<Block>, k: nat)
    requires k < |bs|
    ensures Bytes(Without(bs, k)) == Bytes(bs) - bs[k].size
    decreases bs
  {
    if k == 0 {
      assert Without(bs, 0) == bs[1..];
    } else {
      BytesWithout(bs[1..], k - 1);
      assert Without(bs, k) == [bs[0]] + Without(bs[1..], k - 1);
      BytesCons(bs[0], Without(bs[1..], k - 1));
    }
  }

  /** The bytes that drop out of the heap's books in a request. */
  function Lost(h: Heap, size: nat): nat
    requires size > 0
  {
    var k := Fit(h.free, size);
    if k == |h.free| then Front(h.free) + if Pages(size) * PAGE_SIZE > size then Front(Recycled(h.free)) else 0
    else if h.free[k].size > size then Front(Without(h.free, k))
    else 0
  }

  /** The bytes asked of the page allocator. */
  function Obtained(h: Heap, size: nat): nat {
    if Fit(h.free, size) == |h.free| then Pages(size) * PAGE_SIZE else 0
  }

  /** kmalloc accounts for every byte but those it loses with recycled nodes. */
  lemma MallocBytes(h: Heap, size: nat, chunk: nat)
    requires size > 0
    ensures Total(Malloc(h, size, chunk)) + Lost(h, size) == Total(h) + Obtained(h, size)
  {
    var k := Fit(h.free, size);
    if k == |h.free| {
      var total := Pages(size) * PAGE_SIZE;
      BytesCons(Block(chunk, size), h.used);
      assert Bytes(h.free) == Front(h.free) + Bytes(Recycled(h.free));
      assert Bytes(Recycled(h.free)) == Front(Recycled(h.free)) + Bytes(Recycled(Recycled(h.free)));
      BytesCons(Block(chunk + size, total - size), Recycled(Recycled(h.free)));
    } else {
      var b, rest := h.free[k], Without(h.free, k);
      BytesWithout(h.free, k);
      BytesCons(Block(b.ptr, size), h.used);
      if b.size > size { BytesCons(Block(b.ptr + size, b.size - size), Recycled(rest)); }
    }
  }

  /** Bytes are conserved exactly when the request fits a free block to the byte, or no other free block
      is there whose node could be recycled. */
  lemma MallocConservesIff(h: Heap, granted: Region, size: nat, chunk: nat)
    requires HeapInv(h, granted) && size > 0
    ensures Total(Malloc(h, size, chunk)) == Total(h) + Obtained(h, size) <==>
            var k := Fit(h.free, size);
            h.free == [] || (k < |h.free| && (h.free[k].size == size || |h.free| == 1))
  {
    MallocBytes(h, size, chunk);
    var k := Fit(h.free, size);
    if k < |h.free| && |h.free| > 1 {
      var rest := Without(h.free, k);
      assert rest[0] == if k == 0 then h.free[1] else h.free[0];
    }
    assert forall i | 0 <= i < |h.free| :: Inside(h.free[i], granted);
  }

  lemma FreeBytes(h: Heap, ptr: nat)
    ensures Total(Free(h, ptr)) == Total(h)
  {
    var k := At(h.used, ptr);
    if k < |h.used| {
      BytesWithout(h.used, k);
      BytesCons(h.used[k], h.free);
    }
  }

  // ---------- krealloc ----------

  type Memory = nat -> byte

  function Copied(mem: Memory, dst: nat, src: nat, n: nat): Memory {
    (a: nat) => if dst <= a < dst + n then mem(src + (a - dst)) else mem(a)
  }

  /** krealloc: the heap, the memory and the pointer it returns. */
  function Realloc(h: Heap, mem: Memory, ptr: nat, size: nat, chunk: nat): (Heap, Memory, nat) {
    if ptr == 0 && size == 0 then (h, mem, 0)
    else if ptr == 0 then (Malloc(h, size, chunk), mem, Malloc(h, size, chunk).used[0].ptr)
    else if size == 0 then (Free(h, ptr), mem, 0)
    else
      var k := At(h.used, ptr);
      if k == |h.used| then (h, mem, 0)
      else
        var h1 := Malloc(h, size, chunk);
        var new', n := h1.used[0].ptr, if size > h.used[k].size then h.used[k].size else size;
        (Free(h1, ptr), Copied(mem, new', ptr, n), new')
  }

  /** The block `to` starts with the bytes of the `k`-th block, and no byte of any block has changed. */
  ghost predicate Carried(mem: Memory, mem': Memory, used: seq<Block>, to: Block, k: nat)
    requires k < |used|
  {
    && (forall i: nat | i < to.size && i < used[k].size :: CopiedAt(mem, mem', used[k].ptr, to.ptr, i))
    && (forall j, a: nat | 0 <= j < |used| && used[j].ptr <= a < used[j].ptr + used[j].size :: KeptAt(mem, mem', a))
  }

  predicate CopiedAt(mem: Memory, mem': Memory, src: nat, dst: nat, i: nat) { mem'(dst + i) == mem(src + i) }

  predicate KeptAt(mem: Memory, mem': Memory, a: nat) { mem'(a) == mem(a) }

  /** Copying the front of a block in use into a block apart from all of them. */
  lemma CopyKeeps(mem: Memory, used: seq<Block>, to: Block, k: nat)
    requires k < |used| && ApartFrom(to, used)
    ensures Carried(mem, Copied(mem, to.ptr, used[k].ptr, if to.size > used[k].size then used[k].size else to.size), used, to, k)
  {
    var n := if to.size > used[k].size then used[k].size else to.size;
    var mem' := Copied(mem, to.ptr, used[k].ptr, n);
    forall j, a: nat | 0 <= j < |used| && used[j].ptr <= a < used[j].ptr + used[j].size ensures KeptAt(mem, mem', a) {
      assert Apart(to, used[j]);
    }
  }

  /** What krealloc of a block in use comes to. */
  lemma ReallocIs(h: Heap, granted: Region, mem: Memory, k: nat, size: nat, chunk: nat)
    requires HeapInv(h, granted) && size > 0 && k < |h.used|
    ensures var b, to := h.used[k], Malloc(h, size, chunk).used[0];
            Realloc(h, mem, b.ptr, size, chunk) ==
              (Free(Malloc(h, size, chunk), b.ptr), Copied(mem, to.ptr, b.ptr, if size > b.size then b.size else size), to.ptr)
  {
    AtUnique(h, granted, k);
    assert Inside(h.used[k], granted);
  }

  /** krealloc of a block in use replaces it by one of the new size and keeps the invariant. */
  lemma ReallocInv(h: Heap, granted: Region, mem: Memory, k: nat, size: nat, chunk: nat)
    requires HeapInv(h, granted) && size > 0 && k < |h.used| && Fresh(granted, chunk, Pages(size) * PAGE_SIZE)
    ensures var r := Realloc(h, mem, h.used[k].ptr, size, chunk);
            && HeapInv(r.0, GrantedBy(h, granted, size, chunk))
            && r.0.used == [Block(r.2, size)] + Without(h.used, k)
  {
    MallocInv(h, granted, size, chunk);
    ReallocIs(h, granted, mem, k, size, chunk);
    FreeAfter(h, Malloc(h, size, chunk), GrantedBy(h, granted, size, chunk), k);
  }

  /** Its new block starts with the bytes of the old one, and no byte of any block in use changes. */
  lemma ReallocKeepsBytes(h: Heap, granted: Region, mem: Memory, k: nat, size: nat, chunk: nat)
    requires HeapInv(h, granted) && size > 0 && k < |h.used| && Fresh(granted, chunk, Pages(size) * PAGE_SIZE)
    ensures var r := Realloc(h, mem, h.used[k].ptr, size, chunk); Carried(mem, r.1, h.used, Block(r.2, size), k)
  {
    MallocInv(h, granted, size, chunk);
    ReallocIs(h, granted, mem, k, size, chunk);
    CopyKeeps(mem, h.used, Malloc(h, size, chunk).used[0], k);
  }

  /** Freeing an older block right after an allocation. */
  lemma FreeAfter(h: Heap, h1: Heap, granted: Region, k: nat)
    requires HeapInv(h1, granted) && k < |h.used| && h1.used != [] && h1.used[1..] == h.used
    ensures HeapInv(Free(h1, h.used[k].ptr), granted)
    ensures Free(h1, h.used[k].ptr).used == [h1.used[0]] + Without(h.used, k)
  {
    assert h1.used[k + 1] == h1.used[1..][k];
    AtUnique(h1, granted, k + 1);
    FreeInv(h1, granted, h.used[k].ptr);
    assert Without(h1.used, k + 1) == [h1.used[0]] + Without(h.used, k);
  }

  // ---------- runs ----------

  datatype Call = MallocCall(size: nat, chunk: nat) | FreeCall(ptr: nat) | ReallocCall(ptr: nat, size: nat, chunk: nat)

  function After(h: Heap, mem: Memory, c: Call): (Heap, Memory) {
    match c
    case MallocCall(size, chunk) => (if size == 0 then h else Malloc(h, size, chunk), mem)
    case FreeCall(ptr) => (Free(h, ptr), mem)
    case ReallocCall(ptr, size, chunk) => var (h', mem', _) := Realloc(h, mem, ptr, size, chunk); (h', mem')
  }

  /** A call asks for a new chunk only if no free block is large enough. */
  predicate Allocates(h: Heap, c: Call) {
    match c
    case MallocCall(size, _) => size > 0
    case FreeCall(_) => false
    case ReallocCall(ptr, size, _) => size > 0 && (ptr == 0 || At(h.used, ptr) < |h.used|)
  }

  ghost function GrantedAfter(h: Heap, granted: Region, c: Call): Region {
    if Allocates(h, c) then GrantedBy(h, granted, c.size, c.chunk) else granted
  }

  /** The page allocator only hands out memory the heap does not have. */
  ghost predicate FreshChunks(h: Heap, mem: Memory, granted: Region, calls: seq<Call>)
    decreases calls
  {
    calls != [] ==>
      var c := calls[0];
      && (Allocates(h, c) ==> Fresh(granted, c.chunk, Pages(c.size) * PAGE_SIZE))
      && FreshChunks(After(h, mem, c).0, After(h, mem, c).1, GrantedAfter(h, granted, c), calls[1..])
  }

  function RunCalls(h: Heap, mem: Memory, calls: seq<Call>): Heap
    decreases calls
  {
    if calls == [] then h else RunCalls(After(h, mem, calls[0]).0, After(h, mem, calls[0]).1, calls[1..])
  }

  lemma AfterInv(h: Heap, mem: Memory, granted: Region, c: Call)
    requires HeapInv(h, granted) && (Allocates(h, c) ==> Fresh(granted, c.chunk, Pages(c.size) * PAGE_SIZE))
    ensures HeapInv(After(h, mem, c).0, GrantedAfter(h, granted, c))
  {
    if Allocates(h, c) { MallocInv(h, granted, c.size, c.chunk); }
    match c
    case MallocCall(_, _) =>
    case FreeCall(ptr) => FreeInv(h, granted, ptr);
    case ReallocCall(ptr, size, chunk) =>
      if ptr != 0 && size == 0 { FreeInv(h, granted, ptr); }
      if ptr != 0 && Allocates(h, c) { FreeInv(Malloc(h, size, chunk), GrantedBy(h, granted, size, chunk), ptr); }
  }

  ghost function GrantedRun(h: Heap, mem: Memory, granted: Region, calls: seq<Call>): Region
    decreases calls
  {
    if calls == [] then granted
    else GrantedRun(After(h, mem, calls[0]).0, After(h, mem, calls[0]).1, GrantedAfter(h, granted, calls[0]), calls[1..])
  }

  /** After any sequence of calls the blocks are non-empty, lie in memory the heap was given, and no two
      overlap. */
  lemma {:induction false} RunCallsInv(h: Heap, mem: Memory, granted: Region, calls: seq<Call>)
    requires HeapInv(h, granted) && FreshChunks(h, mem, granted, calls)
    ensures HeapInv(RunCalls(h, mem, calls), GrantedRun(h, mem, granted, calls))
    decreases calls
  {
    if calls != [] {
      AfterInv(h, mem, granted, calls[0]);
      var (h', mem') := After(h, mem, calls[0]);
      RunCallsInv(h', mem', GrantedAfter(h, granted, calls[0]), calls[1..]);
    }
  }

  // ---------- a run that loses a block ----------

  function CutUp(): Heap { Heap([Block(0x106C, 3988), Block(0x1008, 100), Block(0x1000, 8)], []) }

  /** One page cut into blocks of 8, 100 and 3988 bytes. */
  lemma Cutting()
    ensures Malloc(Malloc(Malloc(Heap([], []), 8, 0x1000), 100, 0), 3988, 0) == CutUp()
  {
    var h1 := Heap([Block(0x1000, 8)], [Block(0x1008, 4088)]);
    var h2 := Heap([Block(0x1008, 100), Block(0x1000, 8)], [Block(0x106C, 3988)]);
    assert Malloc(Heap([], []), 8, 0x1000) == h1;
    assert Malloc(h1, 100, 0) == h2 by { assert Without(h1.free, 0) == []; }
    assert Malloc(h2, 3988, 0) == CutUp() by { assert Without(h2.free, 0) == []; }
  }

  /** The first two are given back. */
  lemma GivingBack()
    ensures Free(Free(CutUp(), 0x1008), 0x1000) == Heap([Block(0x106C, 3988)], [Block(0x1000, 8), Block(0x1008, 100)])
  {
    var h3 := CutUp();
    var h4 := Heap([Block(0x106C, 3988), Block(0x1000, 8)], [Block(0x1008, 100)]);
    SecondAt(h3.used, 0x1008);
    assert Without(h3.used, 1) == h4.used;
    SecondAt(h4.used, 0x1000);
    assert Without(h4.used, 1) == [Block(0x106C, 3988)];
  }

  lemma SecondAt(bs: seq<Block>, ptr: nat)
    requires |bs| > 1 && bs[0].ptr != ptr == bs[1].ptr
    ensures At(bs, ptr) == 1
  {
    assert bs[1..][0] == bs[1];
  }

  /** A request for 50 bytes then takes the second block; the node of the first is recycled. */
  lemma Losing(h: Heap)
    requires h == Heap([Block(0x106C, 3988)], [Block(0x1000, 8), Block(0x1008, 100)])
    ensures Malloc(h, 50, 0) == Heap([Block(0x1008, 50), Block(0x106C, 3988)], [Block(0x103A, 50)])
  {
    assert h.free[1..] == [Block(0x1008, 100)];
    assert Fit(h.free, 50) == 1;
    assert Without(h.free, 1) == [Block(0x1000, 8)];
  }

  lemma RunCons(h: Heap, mem: Memory, c: Call, rest: seq<Call>)
    requires !c.ReallocCall?
    ensures RunCalls(h, mem, [c] + rest) == RunCalls(After(h, mem, c).0, mem, rest)
  {
    assert ([c] + rest)[1..] == rest;
  }

  /** From the empty heap: malloc 8, 100 and 3988, free the second and the first, malloc 50. The 8 bytes
      at 0x1000 are on no list afterwards. */
  lemma LosesBlock(mem: Memory)
    ensures RunCalls(Heap([], []), mem,
                     [MallocCall(8, 0x1000)] + ([MallocCall(100, 0)] + ([MallocCall(3988, 0)]
                     + ([FreeCall(0x1008)] + ([FreeCall(0x1000)] + ([MallocCall(50, 0)] + []))))))
            == Heap([Block(0x1008, 50), Block(0x106C, 3988)], [Block(0x103A, 50)])
  {
    var h1 := Malloc(Heap([], []), 8, 0x1000);
    var h2 := Malloc(h1, 100, 0);
    var h4 := Free(CutUp(), 0x1008);
    var h5 := Free(h4, 0x1000);
    var c6: seq<Call> := [];
    var c5 := [MallocCall(50, 0)] + c6;
    var c4 := [FreeCall(0x1000)] + c5;
    var c3 := [FreeCall(0x1008)] + c4;
    var c2 := [MallocCall(3988, 0)] + c3;
    var c1 := [MallocCall(100, 0)] + c2;
    Cutting();
    RunCons(Heap([], []), mem, MallocCall(8, 0x1000), c1);
    RunCons(h1, mem, MallocCall(100, 0), c2);
    RunCons(h2, mem, MallocCall(3988, 0), c3);
    RunCons(CutUp(), mem, FreeCall(0x1008), c4);
    RunCons(h4, mem, FreeCall(0x1000), c5);
    GivingBack();
    Losing(h5);
    RunCons(h5, mem, MallocCall(50, 0), c6);
  }
}
