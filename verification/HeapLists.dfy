/** kernel/mm/kmalloc.c as it is stored: nodes linked into a used and a free list, relinked in place.
    Nodes live in `nodes`; a pointer to one is an index. */
module HeapLists {
  import opened Common
  import opened HeapModel

  type Ptr = Option<nat>

  datatype Node = Node(size: nat, ptr: nat, next: Ptr)

  // ---------- linked lists ----------

  ghost predicate InBounds(nodes: seq<Node>, ids: seq<nat>) {
    forall i | 0 <= i < |ids| :: ids[i] < |nodes|
  }

  /** From `head` the links run through exactly `ids`. */
  ghost predicate Chain(nodes: seq<Node>, head: Ptr, ids: seq<nat>)
    requires InBounds(nodes, ids)
  {
    && head == (if ids == [] then None else Some(ids[0]))
    && forall i: nat | i < |ids| :: LinkAt(nodes, ids, i)
  }

  ghost predicate LinkAt(nodes: seq<Node>, ids: seq<nat>, i: nat)
    requires InBounds(nodes, ids) && i < |ids|
  {
    nodes[ids[i]].next == if i + 1 < |ids| then Some(ids[i + 1]) else None
  }

  ghost function Blocks(nodes: seq<Node>, ids: seq<nat>): (bs: seq<Block>)
    requires InBounds(nodes, ids)
    ensures |bs| == |ids|
  {
    seq(|ids|, i requires 0 <= i < |ids| => Block(nodes[ids[i]].ptr, nodes[ids[i]].size))
  }

  /** A list survives changes to nodes that are not on it. */
  lemma ChainFrame(nodes: seq<Node>, nodes': seq<Node>, head: Ptr, ids: seq<nat>)
    requires InBounds(nodes, ids) && Chain(nodes, head, ids) && |nodes| <= |nodes'|
    requires forall i | 0 <= i < |ids| :: nodes'[ids[i]] == nodes[ids[i]]
    ensures InBounds(nodes', ids) && Chain(nodes', head, ids) && Blocks(nodes', ids) == Blocks(nodes, ids)
  {
    forall i: nat | i < |ids| ensures LinkAt(nodes', ids, i) { assert LinkAt(nodes, ids, i); }
  }

  /** append_node: `n` in front of the list. */
  lemma ChainPush(nodes: seq<Node>, head: Ptr, ids: seq<nat>, n: nat)
    requires InBounds(nodes, ids) && Chain(nodes, head, ids) && n < |nodes| && n !in ids
    ensures var nodes' := nodes[n := nodes[n].(next := head)];
            && InBounds(nodes', [n] + ids) && Chain(nodes', Some(n), [n] + ids)
            && Blocks(nodes', [n] + ids) == [Block(nodes[n].ptr, nodes[n].size)] + Blocks(nodes, ids)
  {
    var nodes' := nodes[n := nodes[n].(next := head)];
    var ids' := [n] + ids;
    forall i: nat | i < |ids'| ensures LinkAt(nodes', ids', i) {
      if i > 0 { assert LinkAt(nodes, ids, i - 1); }
    }
  }

  /** Unlinking the node at place `k`. */
  lemma ChainUnlink(nodes: seq<Node>, head: Ptr, ids: seq<nat>, k: nat)
    requires InBounds(nodes, ids) && Chain(nodes, head, ids) && Distinct(ids) && k < |ids|
    ensures var nodes' := if k == 0 then nodes else nodes[ids[k - 1] := nodes[ids[k - 1]].(next := nodes[ids[k]].next)];
            var ids' := ids[..k] + ids[k + 1..];
            && InBounds(nodes', ids') && Chain(nodes', if k == 0 then nodes[ids[0]].next else head, ids')
            && Blocks(nodes', ids') == Without(Blocks(nodes, ids), k)
            && Distinct(ids') && ids[k] !in ids'
  {
    var nodes' := if k == 0 then nodes else nodes[ids[k - 1] := nodes[ids[k - 1]].(next := nodes[ids[k]].next)];
    var ids' := ids[..k] + ids[k + 1..];
    assert LinkAt(nodes, ids, k);
    forall i: nat | i < |ids'| ensures LinkAt(nodes', ids', i) {
      if i < k { assert LinkAt(nodes, ids, i); } else { assert LinkAt(nodes, ids, i + 1); }
    }
    assert Blocks(nodes', ids') == Without(Blocks(nodes, ids), k);
  }

  const NODES_PER_PAGE := PAGE_SIZE / 12

  /** The two lists, as they are linked. */
  ghost predicate Lists(nodes: seq<Node>, usedHead: Ptr, freeHead: Ptr, used: seq<nat>, free: seq<nat>) {
    && InBounds(nodes, used) && InBounds(nodes, free)
    && Chain(nodes, usedHead, used) && Chain(nodes, freeHead, free)
    && Distinct(used) && Distinct(free) && forall x | x in used :: x !in free
  }

  /** kmalloc from a free block: the block moves to the used list, and what is left over is split off. */
  lemma {:induction false} MallocFits(h: Heap, size: nat, chunk: nat, h1: Heap)
    requires size > 0 && Fit(h.free, size) < |h.free|
    requires h1 == Heap([h.free[Fit(h.free, size)]] + h.used, Without(h.free, Fit(h.free, size)))
    ensures var b := h1.used[0];
            var h2 := Heap([Block(b.ptr, size)] + h1.used[1..], h1.free);
            Malloc(h, size, chunk) == if b.size > size then CreateFree(h2, Block(b.ptr + size, b.size - size)) else h2
  {
    assert h1.used[1..] == h.used;
  }

  class KHeap {
    var nodes: seq<Node>
    var usedHead: Ptr
    var freeHead: Ptr
    var mem: Memory
    ghost var used: seq<nat>
    ghost var free: seq<nat>

    /** Both lists are acyclic and share no node. */
    ghost predicate Valid()
      reads this
    {
      Lists(nodes, usedHead, freeHead, used, free)
    }

    ghost function Abs(): Heap
      requires Valid()
      reads this
    {
      Heap(Blocks(nodes, used), Blocks(nodes, free))
    }

    constructor (mem: Memory)
      ensures Valid() && Abs() == Heap([], []) && this.mem == mem
    {
      nodes, usedHead, freeHead, this.mem := [], None, None, mem;
      used, free := [], [];
    }

    /** append_node to the used list */
    method PushUsed(n: nat)
      requires Valid() && n < |nodes| && n !in used && n !in free
      modifies this`nodes, this`usedHead, this`used
      ensures Valid() && used == [n] + old(used)
      ensures Abs() == Heap([Block(old(nodes)[n].ptr, old(nodes)[n].size)] + old(Abs().used), old(Abs().free))
      ensures nodes == old(nodes)[n := old(nodes)[n].(next := old(usedHead))]
    {
      ChainPush(nodes, usedHead, used, n);
      ChainFrame(nodes, nodes[n := nodes[n].(next := usedHead)], freeHead, free);
      nodes := nodes[n := nodes[n].(next := usedHead)];
      usedHead := Some(n);
      used := [n] + used;
    }

    /** append_node to the free list */
    method PushFree(n: nat)
      requires Valid() && n < |nodes| && n !in used && n !in free
      modifies this`nodes, this`freeHead, this`free
      ensures Valid() && free == [n] + old(free)
      ensures Abs() == Heap(old(Abs().used), [Block(old(nodes)[n].ptr, old(nodes)[n].size)] + old(Abs().free))
      ensures nodes == old(nodes)[n := old(nodes)[n].(next := old(freeHead))]
    {
      ChainPush(nodes, freeHead, free, n);
      ChainFrame(nodes, nodes[n := nodes[n].(next := freeHead)], usedHead, used);
      nodes := nodes[n := nodes[n].(next := freeHead)];
      freeHead := Some(n);
      free := [n] + free;
    }

    /** The node create_node works with: the front of the free list, or one of a new page of nodes. */
    method TakeNode() returns (n: nat)
      requires Valid()
      modifies this`nodes, this`freeHead, this`free
      ensures Valid() && n < |nodes| && n !in used && n !in free
      ensures Abs() == Heap(old(Abs().used), Recycled(old(Abs().free)))
    {
      if freeHead == None {
        n := |nodes|;
        ghost var nodes0 := nodes;
        nodes := nodes + seq(NODES_PER_PAGE, _ => Node(0, 0, None));
        ChainFrame(nodes0, nodes, usedHead, used);
        assert free == [];
      } else {
        n := freeHead.value;
        ChainUnlink(nodes, freeHead, free, 0);
        assert free[..0] + free[1..] == free[1..];
        freeHead := nodes[n].next;
        ghost var bs := Blocks(nodes, free);
        assert Without(bs, 0) == bs[1..];
        free := free[1..];
      }
    }

    /** create_node */
    method CreateNode(size: nat, ptr: nat, isFree: bool) returns (n: nat)
      requires Valid()
      modifies this
      ensures Valid() && mem == old(mem)
      ensures Abs() == if isFree then CreateFree(old(Abs()), Block(ptr, size)) else CreateUsed(old(Abs()), Block(ptr, size))
      ensures n < |nodes| && nodes[n].ptr == ptr && nodes[n].size == size
      ensures if isFree then used == old(used) && usedHead == old(usedHead) else used == [n] + old(used)
    {
      n := TakeNode();
      ghost var nodes0 := nodes;
      nodes := nodes[n := nodes[n].(size := size, ptr := ptr)];
      ChainFrame(nodes0, nodes, usedHead, used);
      ChainFrame(nodes0, nodes, freeHead, free);
      if isFree { PushFree(n); } else { PushUsed(n); }
    }

    /** The search of kmallocu: the first free node that is large enough, and the one before it. */
    method FindFit(size: nat) returns (prev: Ptr, cur: Ptr, ghost k: nat)
      requires Valid()
      ensures k == Fit(Abs().free, size)
      ensures cur == (if k < |free| then Some(free[k]) else None)
      ensures prev == (if k == 0 then None else Some(free[k - 1]))
    {
      prev, cur, k := None, freeHead, 0;
      while cur.Some? && nodes[cur.value].size < size
        invariant k <= |free|
        invariant cur == if k < |free| then Some(free[k]) else None
        invariant prev == if k == 0 then None else Some(free[k - 1])
        invariant forall j | 0 <= j < k :: Abs().free[j].size < size
        decreases |free| - k
      {
        assert LinkAt(nodes, free, k);
        prev, cur := cur, nodes[cur.value].next;
        k := k + 1;
      }
      FitIs(Abs().free, size, k);
    }

    /** The search of kfree and krealloc: the used node of a pointer, and the one before it. */
    method FindUsed(ptr: nat) returns (prev: Ptr, cur: Ptr, ghost k: nat)
      requires Valid()
      ensures k == At(Abs().used, ptr)
      ensures cur == (if k < |used| then Some(used[k]) else None)
      ensures prev == (if k == 0 then None else Some(used[k - 1]))
    {
      prev, cur, k := None, usedHead, 0;
      while cur.Some? && nodes[cur.value].ptr != ptr
        invariant k <= |used|
        invariant cur == if k < |used| then Some(used[k]) else None
        invariant prev == if k == 0 then None else Some(used[k - 1])
        invariant forall j | 0 <= j < k :: Abs().used[j].ptr != ptr
        decreases |used| - k
      {
        assert LinkAt(nodes, used, k);
        prev, cur := cur, nodes[cur.value].next;
        k := k + 1;
      }
      AtIs(Abs().used, ptr, k);
    }

    /** Take the node at place `k` off the free list. */
    method UnlinkFree(prev: Ptr, cur: nat, ghost k: nat)
      requires Valid() && k < |free| && cur == free[k] && prev == (if k == 0 then None else Some(free[k - 1]))
      modifies this`nodes, this`freeHead, this`free
      ensures Valid() && cur < |nodes| && cur !in used && cur !in free
      ensures Abs() == Heap(old(Abs().used), Without(old(Abs().free), k))
      ensures Block(nodes[cur].ptr, nodes[cur].size) == old(Abs().free)[k]
    {
      ghost var nodes0 := nodes;
      ChainUnlink(nodes, freeHead, free, k);
      if prev == None {
        freeHead := nodes[cur].next;
      } else {
        nodes := nodes[prev.value := nodes[prev.value].(next := nodes[cur].next)];
      }
      forall i | 0 <= i < |used| ensures nodes[used[i]] == nodes0[used[i]] {
        assert used[i] in used;
        assert k > 0 ==> free[k - 1] in free;
      }
      ChainFrame(nodes0, nodes, usedHead, used);
      free := free[..k] + free[k + 1..];
    }

    /** Take the node at place `k` off the used list. */
    method UnlinkUsed(prev: Ptr, cur: nat, ghost k: nat)
      requires Valid() && k < |used| && cur == used[k] && prev == (if k == 0 then None else Some(used[k - 1]))
      modifies this`nodes, this`usedHead, this`used
      ensures Valid() && cur < |nodes| && cur !in used && cur !in free
      ensures Abs() == Heap(Without(old(Abs().used), k), old(Abs().free))
      ensures Block(nodes[cur].ptr, nodes[cur].size) == old(Abs().used)[k]
    {
      ghost var nodes0 := nodes;
      ChainUnlink(nodes, usedHead, used, k);
      if prev == None {
        usedHead := nodes[cur].next;
      } else {
        nodes := nodes[prev.value := nodes[prev.value].(next := nodes[cur].next)];
      }
      forall i | 0 <= i < |free| ensures nodes[free[i]] == nodes0[free[i]] {
        assert free[i] in free;
        assert k > 0 ==> used[k - 1] in used;
      }
      ChainFrame(nodes0, nodes, freeHead, free);
      used := used[..k] + used[k + 1..];
    }

    /** kmallocu and kmalloc; `chunk` is what km_alloc_range returns if it is asked. */
    method KMalloc(size: nat, chunk: nat) returns (ptr: nat)
      requires Valid()
      modifies this
      ensures Valid() && mem == old(mem)
      ensures size == 0 ==> ptr == 0 && Abs() == old(Abs())
      ensures size > 0 ==> Abs() == Malloc(old(Abs()), size, chunk) && ptr == Abs().used[0].ptr
    {
      if size < 1 { return 0; }
      ghost var k;
      var prev, cur;
      prev, cur, k := FindFit(size);
      if cur == None {
        ptr := NewBlock(size, chunk);
        return;
      }
      ptr := TakeFit(size, chunk, prev, cur.value, k);
    }

    /** The part of kmallocu that reuses a free block. */
    method TakeFit(size: nat, ghost chunk: nat, prev: Ptr, c: nat, ghost k: nat) returns (ptr: nat)
      requires Valid() && size > 0 && k == Fit(Abs().free, size) < |free|
      requires c == free[k] && prev == (if k == 0 then None else Some(free[k - 1]))
      modifies this
      ensures Valid() && mem == old(mem)
      ensures Abs() == Malloc(old(Abs()), size, chunk) && ptr == Abs().used[0].ptr
    {
      ghost var h := Abs();
      UnlinkFree(prev, c, k);
      ptr := nodes[c].ptr;
      PushUsed(c);
      assert Abs() == Heap([h.free[k]] + h.used, Without(h.free, k));
      Shrink(size);
      MallocFits(h, size, chunk, Heap([h.free[k]] + h.used, Without(h.free, k)));
    }

    /** The part of kmallocu that gets more memory. */
    method NewBlock(size: nat, chunk: nat) returns (ptr: nat)
      requires Valid() && size > 0 && Fit(Abs().free, size) == |Abs().free|
      modifies this
      ensures Valid() && mem == old(mem) && ptr == chunk
      ensures Abs() == Malloc(old(Abs()), size, chunk)
    {
      var total := Pages(size) * PAGE_SIZE;
      var n := CreateNode(size, chunk, false);
      if total > size {
        var rest := CreateNode(total - size, chunk + size, true);
      }
      ptr := chunk;
    }

    /** The last part of kmallocu: what is left of the block at the front of the used list becomes free. */
    method Shrink(size: nat)
      requires Valid() && used != [] && nodes[used[0]].size >= size
      modifies this
      ensures Valid() && mem == old(mem)
      ensures var b, h := old(Abs().used[0]), old(Abs());
              var h1 := Heap([Block(b.ptr, size)] + h.used[1..], h.free);
              Abs() == if b.size > size then CreateFree(h1, Block(b.ptr + size, b.size - size)) else h1
    {
      var c := usedHead.value;
      assert used == [c] + used[1..];
      ghost var h := Abs();
      if nodes[c].size > size {
        var rest := CreateNode(nodes[c].size - size, nodes[c].ptr + size, true);
        assert used == old(used) && Abs().used == h.used;
        ghost var nodes0 := nodes;
        nodes := nodes[c := nodes[c].(size := size)];
        forall i | 0 <= i < |free| ensures nodes[free[i]] == nodes0[free[i]] {
          assert free[i] in free && c in used;
        }
        ChainResize(nodes0, nodes, usedHead, used, size);
        ChainFrame(nodes0, nodes, freeHead, free);
      }
      assert h.used == [h.used[0]] + h.used[1..];
    }

    /** kfree */
    method KFree(ptr: nat)
      requires Valid()
      modifies this
      ensures Valid() && mem == old(mem) && Abs() == Free(old(Abs()), ptr)
    {
      ghost var k;
      var prev, cur;
      prev, cur, k := FindUsed(ptr);
      if cur == None { return; }
      UnlinkUsed(prev, cur.value, k);
      PushFree(cur.value);
    }

    /** krealloc */
    method KRealloc(ptr: nat, size: nat, chunk: nat) returns (r: nat)
      requires Valid()
      modifies this
      ensures Valid() && (Abs(), mem, r) == Realloc(old(Abs()), old(mem), ptr, size, chunk)
    {
      if ptr == 0 && size == 0 {
        return 0;
      } else if ptr == 0 {
        r := KMalloc(size, chunk);
      } else if size == 0 {
        KFree(ptr);
        return 0;
      } else {
        ghost var k;
        var prev, cur;
        prev, cur, k := FindUsed(ptr);
        if cur == None { return 0; }
        var origs := nodes[cur.value].size;
        r := KMalloc(size, chunk);
        mem := Copied(mem, r, ptr, if size > origs then origs else size);
        KFree(ptr);
      }
    }
  }

  lemma FitIs(bs: seq<Block>, size: nat, k: nat)
    requires k <= |bs| && (k < |bs| ==> bs[k].size >= size) && forall j | 0 <= j < k :: bs[j].size < size
    ensures Fit(bs, size) == k
  {
    var f := Fit(bs, size);
    assert f <= k;
    assert k <= f;
  }

  lemma AtIs(bs: seq<Block>, ptr: nat, k: nat)
    requires k <= |bs| && (k < |bs| ==> bs[k].ptr == ptr) && forall j | 0 <= j < k :: bs[j].ptr != ptr
    ensures At(bs, ptr) == k
  {
    var f := At(bs, ptr);
    assert f <= k;
    assert k <= f;
  }

  /** Changing the size stored in the first node. */
  lemma ChainResize(nodes: seq<Node>, nodes': seq<Node>, head: Ptr, ids: seq<nat>, size: nat)
    requires InBounds(nodes, ids) && Chain(nodes, head, ids) && Distinct(ids) && ids != []
    requires nodes' == nodes[ids[0] := nodes[ids[0]].(size := size)]
    ensures InBounds(nodes', ids) && Chain(nodes', head, ids)
    ensures Blocks(nodes', ids) == [Block(nodes[ids[0]].ptr, size)] + Blocks(nodes, ids)[1..]
  {
    forall i: nat | i < |ids| ensures LinkAt(nodes', ids, i) { assert LinkAt(nodes, ids, i); }
  }
}
