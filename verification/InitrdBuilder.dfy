/** mkinitrd's entry list (share/src/mkinitrd/initrd.c:14-105): records linked by `files`, `next`,
    `pdir` and `last_entry`, updated in place by three calls. Records live in `heap`, in the order
    they were allocated; a pointer is an index. */
module InitrdBuilder {
  import opened Common
  import opened InitrdFormat

  type Ptr = Option<nat>

  /** struct entry; `path` is modelled by the bytes of the file it names. */
  datatype Entry = Entry(name: seq<byte>, path: Option<seq<byte>>, count: nat,
                         files: Ptr, pdir: Ptr, next: Ptr, lastEntry: Ptr)

  // ---------- what the heap represents ----------

  /** Record `p` and the `Entries(n) - 1` behind it are the tree `n`; the `next` link of `p` itself
      belongs to the list `p` is in. */
  ghost predicate TreeAt(heap: seq<Entry>, p: nat, n: Node)
    decreases n, 0
  {
    && p + Entries(n) <= |heap|
    && heap[p].name == n.name
    && match n
       case File(_, content) => heap[p].path == Some(content)
       case Dir(_, es) =>
         && heap[p].path == None
         && heap[p].count == |es|
         && heap[p].files == (if es == [] then None else Some(p + 1))
         && ListAt(heap, p + 1, es, None)
  }

  /** Consecutive subtrees `ns` from record `p` on, each linked to the following one and the last to `after`. */
  ghost predicate ListAt(heap: seq<Entry>, p: nat, ns: seq<Node>, after: Ptr)
    decreases ns
  {
    ns != [] ==>
      && TreeAt(heap, p, ns[0])
      && heap[p].next == (if |ns| == 1 then after else Some(p + Entries(ns[0])))
      && ListAt(heap, p + Entries(ns[0]), ns[1..], after)
  }

  /** Where the last of `ns` starts. */
  function LastAt(p: nat, ns: seq<Node>): nat
    requires ns != []
    decreases ns
  {
    if |ns| == 1 then p else LastAt(p + Entries(ns[0]), ns[1..])
  }

  // ---------- framing ----------

  lemma {:induction false} TreeFrame(heap: seq<Entry>, heap': seq<Entry>, p: nat, n: Node)
    requires TreeAt(heap, p, n) && |heap| <= |heap'|
    requires forall q | p < q < p + Entries(n) :: heap'[q] == heap[q]
    requires heap'[p].(next := heap[p].next) == heap[p]
    ensures TreeAt(heap', p, n)
    decreases n, 0
  {
    if n.Dir? {
      if n.entries != [] { LastNext(heap, p + 1, n.entries, None); }
      ListFrame(heap, heap', p + 1, n.entries, None, None);
    }
  }

  /** A list survives changes outside it; relinking its last element changes only where it leads. */
  lemma {:induction false} ListFrame(heap: seq<Entry>, heap': seq<Entry>, p: nat, ns: seq<Node>, after: Ptr,
                                     after': Ptr)
    requires ListAt(heap, p, ns, after) && |heap| <= |heap'| && p + EntriesAll(ns) <= |heap|
    requires forall q | p <= q < p + EntriesAll(ns) ::
               heap'[q] == if q == LastAt(p, ns) then heap[q].(next := after') else heap[q]
    ensures ListAt(heap', p, ns, after')
    decreases ns, 1
  {
    if ns != [] {
      LastAtRange(p, ns);
      var rest := p + Entries(ns[0]);
      if |ns| > 1 { LastAtRange(rest, ns[1..]); }
      TreeFrame(heap, heap', p, ns[0]);
      ListFrame(heap, heap', rest, ns[1..], after, after');
    }
  }

  lemma {:induction false} LastAtRange(p: nat, ns: seq<Node>)
    requires ns != []
    ensures p <= LastAt(p, ns) < p + EntriesAll(ns)
    ensures LastAt(p, ns) + Entries(ns[|ns| - 1]) == p + EntriesAll(ns)
    decreases ns
  {
    if |ns| > 1 { LastAtRange(p + Entries(ns[0]), ns[1..]); }
  }

  lemma {:induction false} LastNext(heap: seq<Entry>, p: nat, ns: seq<Node>, after: Ptr)
    requires ns != [] && ListAt(heap, p, ns, after)
    ensures LastAt(p, ns) < |heap| && heap[LastAt(p, ns)].next == after
    decreases ns
  {
    if |ns| > 1 { LastNext(heap, p + Entries(ns[0]), ns[1..], after); }
  }

  lemma {:induction false} ListRoom(heap: seq<Entry>, p: nat, ns: seq<Node>, after: Ptr)
    requires ListAt(heap, p, ns, after) && p <= |heap|
    ensures p + EntriesAll(ns) <= |heap|
    decreases ns
  {
    if ns != [] { ListRoom(heap, p + Entries(ns[0]), ns[1..], after); }
  }

  lemma {:induction false} EntriesAllAppend(ns: seq<Node>, n: Node)
    ensures EntriesAll(ns + [n]) == EntriesAll(ns) + Entries(n)
  {
    if ns != [] {
      assert (ns + [n])[1..] == ns[1..] + [n];
      EntriesAllAppend(ns[1..], n);
    }
  }

  /** A list that leads to record `e` and the subtree at `e` form one longer list. */
  lemma {:induction false} ListAppend(heap: seq<Entry>, p: nat, ns: seq<Node>, n: Node)
    requires ListAt(heap, p, ns, Some(p + EntriesAll(ns)))
    requires TreeAt(heap, p + EntriesAll(ns), n) && heap[p + EntriesAll(ns)].next == None
    ensures ListAt(heap, p, ns + [n], None)
    ensures LastAt(p, ns + [n]) == p + EntriesAll(ns)
    decreases ns
  {
    if ns == [] {
      assert ns + [n] == [n];
    } else {
      assert (ns + [n])[0] == ns[0] && (ns + [n])[1..] == ns[1..] + [n];
      ListAppend(heap, p + Entries(ns[0]), ns[1..], n);
    }
  }

  // ---------- open directories ----------

  /** A directory that has been started but not ended, with the entries finished so far. */
  datatype Open = Open(id: nat, name: seq<byte>, kids: seq<Node>)

  function EndOf(f: Open): nat { f.id + 1 + EntriesAll(f.kids) }

  /** Record `f.id` is the open directory `f`; `inner` is the record of a directory open inside it. */
  ghost predicate OpenAt(heap: seq<Entry>, f: Open, inner: Ptr) {
    && EndOf(f) <= |heap|
    && heap[f.id].name == f.name
    && heap[f.id].path == None
    && heap[f.id].next == None
    && heap[f.id].count == |f.kids| + (if inner.Some? then 1 else 0)
    && heap[f.id].files == (if f.kids == [] then inner else Some(f.id + 1))
    && ListAt(heap, f.id + 1, f.kids, inner)
    && (inner.Some? ==> inner == Some(EndOf(f)) && heap[f.id].lastEntry == inner)
    && (inner.None? && f.kids != [] ==> heap[f.id].lastEntry == Some(LastAt(f.id + 1, f.kids)))
  }

  /** Level `k` of the nest of open directories; `inner` is open inside the innermost of them. */
  ghost predicate LevelAt(heap: seq<Entry>, open: seq<Open>, inner: Ptr, k: nat)
    requires k < |open|
  {
    && OpenAt(heap, open[k], if k + 1 < |open| then Some(open[k + 1].id) else inner)
    && heap[open[k].id].pdir == (if k == 0 then None else Some(open[k - 1].id))
  }

  ghost predicate AllOpen(heap: seq<Entry>, open: seq<Open>, inner: Ptr) {
    forall k: nat | k < |open| :: LevelAt(heap, open, inner, k)
  }

  lemma OpenFrame(heap: seq<Entry>, heap': seq<Entry>, f: Open, inner: Ptr)
    requires OpenAt(heap, f, inner) && |heap| <= |heap'|
    requires forall q | f.id <= q < EndOf(f) :: heap'[q] == heap[q]
    ensures OpenAt(heap', f, inner)
  {
    if f.kids != [] { LastNext(heap, f.id + 1, f.kids, inner); }
    ListFrame(heap, heap', f.id + 1, f.kids, inner, inner);
  }

  lemma {:induction false} OpenOrder(heap: seq<Entry>, open: seq<Open>, inner: Ptr, k: nat, j: nat)
    requires AllOpen(heap, open, inner) && k < j < |open|
    ensures EndOf(open[k]) <= open[j].id
    decreases j - k
  {
    assert LevelAt(heap, open, inner, k);
    if k + 1 < j { OpenOrder(heap, open, inner, k + 1, j); }
  }

  /** Entry `n`, finished behind the open directory `f`, joins its list. */
  lemma CloseInner(heap: seq<Entry>, f: Open, n: Node)
    requires OpenAt(heap, f, Some(EndOf(f))) && TreeAt(heap, EndOf(f), n) && heap[EndOf(f)].next == None
    ensures OpenAt(heap, f.(kids := f.kids + [n]), None)
    ensures EndOf(f.(kids := f.kids + [n])) == EndOf(f) + Entries(n)
    ensures LastAt(f.id + 1, f.kids + [n]) == EndOf(f)
  {
    EntriesAllAppend(f.kids, n);
    ListAppend(heap, f.id + 1, f.kids, n);
  }

  /** What add_entry leaves in memory when directory `d`, whose last entry is `c`, gets record `e`. */
  function Linked(heap: seq<Entry>, d: nat, c: Ptr, e: nat): (heap': seq<Entry>)
    requires d < |heap| && e < |heap| && (c.Some? ==> c.value < |heap|)
    ensures |heap'| == |heap|
  {
    var h1 := if heap[d].files == None then heap[d := heap[d].(files := Some(e))] else heap;
    var h2 := h1[e := h1[e].(next := None)];
    var h3 := h2[d := h2[d].(count := h2[d].count + 1)];
    var h4 := if c.Some? then h3[c.value := h3[c.value].(next := Some(e))] else h3;
    h4[d := h4[d].(lastEntry := Some(e))]
  }

  /** The entry that a new one is linked behind. */
  function CurEntry(f: Open): Ptr {
    if f.kids == [] then None else Some(LastAt(f.id + 1, f.kids))
  }

  lemma LinkedTop(heap: seq<Entry>, f: Open, rec: Entry)
    requires OpenAt(heap, f, None) && EndOf(f) == |heap|
    ensures CurEntry(f).Some? ==> f.id < CurEntry(f).value < |heap|
    ensures var heap' := Linked(heap + [rec], f.id, CurEntry(f), |heap|);
            && OpenAt(heap', f, Some(|heap|))
            && heap'[|heap|] == rec.(next := None)
            && heap'[f.id].pdir == heap[f.id].pdir
  {
    if f.kids != [] { LastAtRange(f.id + 1, f.kids); }
    var heap1 := heap + [rec];
    var heap' := Linked(heap1, f.id, CurEntry(f), |heap|);
    ListFrame(heap, heap', f.id + 1, f.kids, None, Some(|heap|));
  }

  /** Linking a new record into the innermost open directory makes it the one open inside. */
  lemma LinkedOpen(heap: seq<Entry>, open: seq<Open>, rec: Entry)
    requires open != [] && AllOpen(heap, open, None) && EndOf(open[|open| - 1]) == |heap|
    ensures var top := open[|open| - 1];
            && (CurEntry(top).Some? ==> top.id < CurEntry(top).value < |heap|)
            && var heap' := Linked(heap + [rec], top.id, CurEntry(top), |heap|);
               heap'[|heap|] == rec.(next := None) && AllOpen(heap', open, Some(|heap|))
  {
    var top := open[|open| - 1];
    assert LevelAt(heap, open, None, |open| - 1);
    LinkedTop(heap, top, rec);
    var heap' := Linked(heap + [rec], top.id, CurEntry(top), |heap|);
    forall k: nat | k < |open|
      ensures LevelAt(heap', open, Some(|heap|), k)
    {
      assert LevelAt(heap, open, None, k);
      if k + 1 < |open| {
        OpenOrder(heap, open, None, k, |open| - 1);
        OpenFrame(heap, heap', open[k], Some(open[k + 1].id));
      }
    }
  }

  /** The new record is itself an open directory. */
  lemma PushOpen(heap: seq<Entry>, open: seq<Open>, f: Open)
    requires f.kids == [] && OpenAt(heap, f, None)
    requires open == [] || AllOpen(heap, open, Some(f.id))
    requires heap[f.id].pdir == if open == [] then None else Some(open[|open| - 1].id)
    ensures AllOpen(heap, open + [f], None)
  {
    var open' := open + [f];
    forall k: nat | k < |open'|
      ensures LevelAt(heap, open', None, k)
    {
      if k < |open| { assert LevelAt(heap, open, Some(f.id), k); }
    }
  }

  /** A finished entry `n` joins the innermost open directory. */
  lemma JoinOpen(heap: seq<Entry>, open: seq<Open>, n: Node)
    requires open != []
    requires var top := open[|open| - 1];
             && AllOpen(heap, open, Some(EndOf(top)))
             && TreeAt(heap, EndOf(top), n) && heap[EndOf(top)].next == None
    ensures var top := open[|open| - 1];
            var top' := top.(kids := top.kids + [n]);
            && AllOpen(heap, open[|open| - 1 := top'], None)
            && EndOf(top') == EndOf(top) + Entries(n)
            && CurEntry(top') == Some(EndOf(top))
  {
    var top := open[|open| - 1];
    assert LevelAt(heap, open, Some(EndOf(top)), |open| - 1);
    CloseInner(heap, top, n);
    var open' := open[|open| - 1 := top.(kids := top.kids + [n])];
    forall k: nat | k < |open'|
      ensures LevelAt(heap, open', None, k)
    {
      assert LevelAt(heap, open, Some(EndOf(top)), k);
    }
  }

  /** Ending the innermost open directory makes it an entry of the one around it. */
  lemma PopOpen(heap: seq<Entry>, open: seq<Open>)
    requires |open| >= 2 && AllOpen(heap, open, None)
    ensures var top, outer := open[|open| - 1], open[|open| - 2];
            var outer' := outer.(kids := outer.kids + [Dir(top.name, top.kids)]);
            && outer.id < |heap|
            && AllOpen(heap, open[..|open| - 2] + [outer'], None)
            && EndOf(outer') == EndOf(top)
            && heap[outer.id].lastEntry == Some(top.id) == CurEntry(outer')
  {
    var top, outer := open[|open| - 1], open[|open| - 2];
    var open1 := open[..|open| - 1];
    assert LevelAt(heap, open, None, |open| - 1) && LevelAt(heap, open, None, |open| - 2);
    assert AllOpen(heap, open1, Some(top.id)) by {
      forall k: nat | k < |open1| ensures LevelAt(heap, open1, Some(top.id), k) {
        assert LevelAt(heap, open, None, k);
      }
    }
    JoinOpen(heap, open1, Dir(top.name, top.kids));
    var outer' := outer.(kids := outer.kids + [Dir(top.name, top.kids)]);
    assert open1[|open1| - 1 := outer'] == open[..|open| - 2] + [outer'];
  }

  // ---------- the calls ----------

  class Builder {
    var heap: seq<Entry>
    var curDir: Ptr
    var curEntry: Ptr
    var root: Ptr
    var entryCount: nat
    ghost var open: seq<Open>        // directories started and not ended, outermost first
    ghost var done: Option<Node>     // the last root directory that was ended

    ghost predicate Valid()
      reads this
    {
      && AllOpen(heap, open, None)
      && (open != [] ==>
            var top := open[|open| - 1];
            && EndOf(top) == |heap|
            && curDir == Some(top.id)
            && curEntry == CurEntry(top)
            && root == Some(open[0].id)
            && done == None)
      && (open == [] ==> curDir == None)
      && (done.Some? ==> root.Some? && TreeAt(heap, root.value, done.value) && heap[root.value].next == None)
    }

    constructor ()
      ensures Valid() && open == [] && done == None && entryCount == 0
    {
      heap, curDir, curEntry, root, entryCount := [], None, None, None, 0;
      open, done := [], None;
    }

    method AddEntry(e: nat)
      requires curDir.Some? && curDir.value < |heap| && e < |heap|
      requires curEntry.Some? ==> curEntry.value < |heap|
      modifies this`heap, this`entryCount
      ensures heap == Linked(old(heap), curDir.value, curEntry, e)
      ensures entryCount == old(entryCount) + 1
    {
      var d := curDir.value;
      if heap[d].files == None {
        heap := heap[d := heap[d].(files := Some(e))];
      }
      heap := heap[e := heap[e].(next := None)];
      heap := heap[d := heap[d].(count := heap[d].count + 1)];
      if curEntry.Some? {
        var c := curEntry.value;
        heap := heap[c := heap[c].(next := Some(e))];
      }
      heap := heap[d := heap[d].(lastEntry := Some(e))];
      entryCount := entryCount + 1;
    }

    /** id_start_dir; `junk` is what malloc left in the field the code does not set. */
    method StartDir(name: seq<byte>, junk: Ptr)
      requires Valid()
      modifies this
      ensures Valid() && done == None
      ensures |open| == |old(open)| + 1 && open[..|old(open)|] == old(open)
      ensures open[|old(open)|].name == name && open[|old(open)|].kids == []
    {
      var dir := Entry(name, None, 0, None, curDir, None, junk);
      var e := |heap|;
      ghost var f := Open(e, name, []);
      if curDir.Some? {
        LinkedOpen(heap, open, dir);
        heap := heap + [dir];
        AddEntry(e);
      } else {
        heap := heap + [dir];
        root := Some(e);
      }
      curDir := Some(e);
      curEntry := None;
      PushOpen(heap, open, f);
      open, done := open + [f], None;
    }

    /** id_add_file; `junk` is what malloc left in `count`. */
    method AddFile(name: seq<byte>, content: seq<byte>, junk: nat)
      requires Valid() && open != []
      modifies this
      ensures Valid() && done == None
      ensures |open| == |old(open)| && open[..|open| - 1] == old(open)[..|open| - 1]
      ensures var top, was := open[|open| - 1], old(open)[|open| - 1];
              top == was.(kids := was.kids + [File(name, content)])
    {
      var file := Entry(name, Some(content), junk, None, None, None, None);
      var e := |heap|;
      LinkedOpen(heap, open, file);
      heap := heap + [file];
      AddEntry(e);
      JoinOpen(heap, open, File(name, content));
      curEntry := Some(e);
      ghost var top := open[|open| - 1];
      open := open[|open| - 1 := top.(kids := top.kids + [File(name, content)])];
    }

    /** id_end_dir */
    method EndDir()
      requires Valid() && open != []
      modifies this
      ensures Valid()
      ensures var ended := old(open)[|old(open)| - 1];
              var dir := Dir(ended.name, ended.kids);
              if |old(open)| == 1 then open == [] && done == Some(dir)
              else
                && done == None && |open| == |old(open)| - 1 && open[..|open| - 1] == old(open)[..|open| - 1]
                && var was := old(open)[|open| - 1];
                   open[|open| - 1] == was.(kids := was.kids + [dir])
    {
      ghost var top := open[|open| - 1];
      ghost var dir := Dir(top.name, top.kids);
      assert LevelAt(heap, open, None, |open| - 1);
      curDir := heap[curDir.value].pdir;
      if curDir.Some? {
        PopOpen(heap, open);
        curEntry := heap[curDir.value].lastEntry;
        ghost var outer := open[|open| - 2];
        open := open[..|open| - 2] + [outer.(kids := outer.kids + [dir])];
      } else {
        open, done := [], Some(dir);
      }
    }
  }
}
