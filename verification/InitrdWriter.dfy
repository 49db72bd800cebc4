/** mkinitrd's image writer (share/src/mkinitrd/initrd.c:128-266): one pass over the linked records,
    with every directory's `next` field patched after its subtree has been written. */
module InitrdWriter {
  import opened Common
  import opened InitrdFormat
  import opened InitrdBuilder

  /** The output file: bytes and a position, as fwrite, ftell and fseek see them. */
  class OutFile {
    var bytes: seq<byte>
    var pos: nat

    constructor ()
      ensures bytes == [] && pos == 0
    {
      bytes, pos := [], 0;
    }

    method Write(data: seq<byte>)
      requires pos <= |bytes|
      modifies this
      ensures pos == old(pos) + |data| <= |bytes|
      ensures |bytes| == if old(pos) + |data| <= |old(bytes)| then |old(bytes)| else pos
      ensures bytes[..old(pos)] == old(bytes)[..old(pos)]
      ensures bytes[old(pos)..pos] == data
      ensures pos <= |old(bytes)| ==> bytes[pos..] == old(bytes)[pos..]
    {
      var end := pos + |data|;
      bytes := bytes[..pos] + data + (if end <= |bytes| then bytes[end..] else []);
      pos := end;
    }

    method Seek(to: nat)
      requires to <= |bytes|
      modifies this`pos
      ensures pos == to
    {
      pos := to;
    }
  }

  method Append(out: OutFile, data: seq<byte>)
    requires out.pos == |out.bytes|
    modifies out
    ensures out.bytes == old(out.bytes) + data && out.pos == |out.bytes|
  {
    out.Write(data);
    assert out.bytes == out.bytes[..old(out.pos)] + out.bytes[old(out.pos)..];
  }

  /** Overwrite four bytes and return to the end of the file. */
  method Patch(out: OutFile, at: nat, value: nat, ghost before: seq<byte>, ghost old4: seq<byte>,
               ghost behind: seq<byte>)
    requires out.pos == |out.bytes| && out.bytes == before + old4 + behind && |before| == at && |old4| == 4
    modifies out
    ensures out.bytes == before + LE32(value) + behind && out.pos == |out.bytes|
  {
    var back := out.pos;
    out.Seek(at);
    out.Write(LE32(value));
    assert out.bytes == out.bytes[..at] + out.bytes[at..at + 4] + out.bytes[at + 4..];
    out.Seek(back);
  }

  method WriteFile(heap: seq<Entry>, p: nat, out: OutFile, offset: nat, ghost n: Node) returns (newoffs: nat)
    requires n.File? && TreeAt(heap, p, n)
    requires out.pos == |out.bytes| == offset
    modifies out
    ensures out.bytes == old(out.bytes) + Layout(n, offset, heap[p].next.Some?)
    ensures newoffs == out.pos == |out.bytes| == offset + Extent(n)
  {
    var content := heap[p].path.value;
    var count, namelen := |content|, |heap[p].name| + 1;
    var namepos := offset + ENTRY_SIZE;
    var datapos := namepos + namelen;
    newoffs := datapos + count;
    var next := if heap[p].next.Some? then newoffs else 0;
    Append(out, EntryBytes(TYPE_FILE, namepos, count, datapos, next));
    Append(out, heap[p].name + [0]);
    Append(out, content);
  }

  /** The bytes of an entry split around its `next` field. */
  lemma SplitNext(kind: nat, name: nat, count: nat, content: nat, next: nat)
    ensures EntryBytes(kind, name, count, content, next) == EntryBytes(kind, name, count, content, 0)[..16] + LE32(next)
  {
  }

  method WriteEntry(heap: seq<Entry>, p: nat, out: OutFile, offset: nat, ghost n: Node) returns (offs: nat)
    requires TreeAt(heap, p, n)
    requires out.pos == |out.bytes| == offset
    modifies out
    ensures out.bytes == old(out.bytes) + Layout(n, offset, heap[p].next.Some?)
    ensures offs == out.pos == |out.bytes| == offset + Extent(n)
    decreases n, 1
  {
    if heap[p].path.Some? {
      offs := WriteFile(heap, p, out, offset, n);
    } else {
      offs := WriteDir(heap, p, out, offset, n);
    }
  }

  /** With `left` still to be written at `offs`, the output becomes `total`. */
  ghost predicate ToWrite(written: seq<byte>, left: seq<Node>, offs: nat, total: seq<byte>) {
    written + LayoutAll(left, offs) == total
  }

  lemma ToWriteNext(written: seq<byte>, left: seq<Node>, offs: nat, total: seq<byte>)
    requires left != [] && ToWrite(written, left, offs, total)
    ensures ToWrite(written + Layout(left[0], offs, |left| > 1), left[1..], offs + Extent(left[0]), total)
  {
    var b, c := Layout(left[0], offs, |left| > 1), LayoutAll(left[1..], offs + Extent(left[0]));
    assert written + (b + c) == (written + b) + c;
  }

  /** The loop of write_dir over the entries of a directory. */
  method WriteEntries(heap: seq<Entry>, files: Ptr, out: OutFile, datapos: nat, ghost p: nat, ghost ns: seq<Node>)
    returns (offs: nat)
    requires ListAt(heap, p, ns, None) && files == (if ns == [] then None else Some(p))
    requires out.pos == |out.bytes| == datapos
    modifies out
    ensures out.bytes == old(out.bytes) + LayoutAll(ns, datapos)
    ensures offs == out.pos == |out.bytes|
    decreases ns, 1
  {
    var cur := files;
    offs := datapos;
    ghost var i: nat, left, q: nat := 0, ns, p;
    while cur.Some?
      invariant i <= |ns| && left == ns[i..]
      invariant cur == if left == [] then None else Some(q)
      invariant ListAt(heap, q, left, None)
      invariant offs == out.pos == |out.bytes|
      invariant ToWrite(out.bytes, left, offs, old(out.bytes) + LayoutAll(ns, datapos))
      decreases |left|
    {
      offs := WriteNext(heap, cur.value, out, offs, ns, i, old(out.bytes) + LayoutAll(ns, datapos));
      cur := heap[cur.value].next;
      i, left, q := i + 1, left[1..], q + Entries(left[0]);
    }
  }

  /** One round of that loop. */
  method WriteNext(heap: seq<Entry>, p: nat, out: OutFile, offset: nat, ghost ns: seq<Node>, ghost i: nat,
                   ghost total: seq<byte>) returns (offs: nat)
    requires i < |ns| && ListAt(heap, p, ns[i..], None)
    requires out.pos == |out.bytes| == offset && ToWrite(out.bytes, ns[i..], offset, total)
    modifies out
    ensures offs == out.pos == |out.bytes| && ToWrite(out.bytes, ns[i..][1..], offs, total)
    decreases ns, 0
  {
    ghost var written, left := out.bytes, ns[i..];
    assert left[0] == ns[i];
    offs := WriteEntry(heap, p, out, offset, ns[i]);
    ToWriteNext(written, left, offset, total);
  }

  method WriteDir(heap: seq<Entry>, p: nat, out: OutFile, offset: nat, ghost n: Node) returns (offs: nat)
    requires n.Dir? && TreeAt(heap, p, n)
    requires out.pos == |out.bytes| == offset
    modifies out
    ensures out.bytes == old(out.bytes) + Layout(n, offset, heap[p].next.Some?)
    ensures offs == out.pos == |out.bytes| == offset + Extent(n)
    decreases n, 0
  {
    var namepos := offset + ENTRY_SIZE;
    var datapos := namepos + |heap[p].name| + 1;
    var entry := EntryBytes(TYPE_DIR, namepos, heap[p].count, datapos, 0);
    Append(out, entry);
    var nextPos := out.pos - 4;
    Append(out, heap[p].name + [0]);
    offs := WriteEntries(heap, heap[p].files, out, datapos, p + 1, n.entries);

    ghost var base, name, all := old(out.bytes), heap[p].name + [0], LayoutAll(n.entries, datapos);
    Regroup(base, entry, name, all);
    if heap[p].next.Some? {
      LinkNext(out, nextPos, offs, base, namepos, |n.entries|, datapos, name, all);
    }
  }

  /** The end of write_dir: the `next` field of the directory's entry, known only now, is written back. */
  method LinkNext(out: OutFile, nextPos: nat, offs: nat, ghost base: seq<byte>, ghost namepos: nat, ghost count: nat,
                  ghost datapos: nat, ghost name: seq<byte>, ghost all: seq<byte>)
    requires out.bytes == base + (EntryBytes(TYPE_DIR, namepos, count, datapos, 0) + name + all)
    requires out.pos == |out.bytes| && nextPos == |base| + 16
    modifies out
    ensures out.bytes == base + (EntryBytes(TYPE_DIR, namepos, count, datapos, offs) + name + all)
    ensures out.pos == |out.bytes| == |old(out.bytes)|
  {
    ghost var entry := EntryBytes(TYPE_DIR, namepos, count, datapos, 0);
    Regroup(base, entry, name, all);
    SplitNext(TYPE_DIR, namepos, count, datapos, offs);
    Patch(out, nextPos, offs, base + entry[..16], entry[16..], name + all);
    RegroupPatched(base, entry[..16], LE32(offs), name, all);
  }

  lemma Regroup(base: seq<byte>, entry: seq<byte>, name: seq<byte>, all: seq<byte>)
    requires |entry| == ENTRY_SIZE
    ensures base + entry + name + all == base + (entry + name + all)
    ensures base + entry + name + all == (base + entry[..16]) + entry[16..] + (name + all)
  {
  }

  lemma RegroupPatched(base: seq<byte>, front: seq<byte>, next: seq<byte>, name: seq<byte>,
                       all: seq<byte>)
    ensures (base + front) + next + (name + all) == base + ((front + next) + name + all)
  {
  }

  /** id_write: header, then the root directory. */
  method IdWrite(b: Builder, out: OutFile)
    requires b.Valid() && b.done.Some? && b.done.value.Dir?
    requires out.pos == |out.bytes| == 0
    modifies out
    ensures out.bytes == Image(b.done.value)
  {
    Append(out, HEADER);
    ghost var root := b.done.value;
    var size := WriteDir(b.heap, b.root.value, out, HEADER_SIZE, root);
    assert [] + HEADER == HEADER;
  }
}
