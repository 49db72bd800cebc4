/** The initrd image: the tree it stores, the bytes mkinitrd lays out for it, and what it
    means for an image to describe a tree when read by chasing offsets. */
module InitrdFormat {
  import opened Common

  const TYPE_FILE := 0
  const TYPE_DIR := 1
  const ENTRY_SIZE := 20
  const HEADER_SIZE := 4
  const NO_NAME: seq<byte> := [60, 110, 111, 32, 110, 97, 109, 101, 62]  // "<no name>"

  datatype Node =
    | File(name: seq<byte>, content: seq<byte>)
    | Dir(name: seq<byte>, entries: seq<Node>)

  ghost predicate NulFree(n: Node) {
    0 !in n.name &&
    (n.Dir? ==> forall i | 0 <= i < |n.entries| :: NulFree(n.entries[i]))
  }

  // ---------- what mkinitrd writes ----------

  function EntryBytes(kind: nat, name: nat, count: nat, content: nat, next: nat): (r: seq<byte>)
    ensures |r| == ENTRY_SIZE
  {
    LE32(kind) + LE32(name) + LE32(count) + LE32(content) + LE32(next)
  }

  /** The number of image bytes an entry takes, its subtree included. */
  function Extent(n: Node): nat
    decreases n, 0
  {
    ENTRY_SIZE + |n.name| + 1 +
    match n
    case File(_, content) => |content|
    case Dir(_, entries) => ExtentAll(entries)
  }

  function ExtentAll(ns: seq<Node>): nat
    decreases ns
  {
    if ns == [] then 0 else Extent(ns[0]) + ExtentAll(ns[1..])
  }

  /** The bytes of one entry placed at absolute offset `at`, with a `next` link when a sibling follows. */
  function Layout(n: Node, at: nat, hasNext: bool): (r: seq<byte>)
    ensures |r| == Extent(n)
    decreases n, 0
  {
    var data := at + ENTRY_SIZE + |n.name| + 1;
    var next := if hasNext then at + Extent(n) else 0;
    match n
    case File(name, content) =>
      EntryBytes(TYPE_FILE, at + ENTRY_SIZE, |content|, data, next) + (name + [0]) + content
    case Dir(name, entries) =>
      EntryBytes(TYPE_DIR, at + ENTRY_SIZE, |entries|, data, next) + (name + [0]) + LayoutAll(entries, data)
  }

  function LayoutAll(ns: seq<Node>, at: nat): (r: seq<byte>)
    ensures |r| == ExtentAll(ns)
    decreases ns
  {
    if ns == [] then [] else Layout(ns[0], at, |ns| > 1) + LayoutAll(ns[1..], at + Extent(ns[0]))
  }

  const HEADER: seq<byte> := [107, 73, 68, 0]  // 'k' 'I' 'D', version 0

  function Image(root: Node): seq<byte> {
    HEADER + Layout(root, HEADER_SIZE, false)
  }

  // ---------- what an image says ----------

  function Field(img: seq<byte>, at: nat, k: nat): nat
    requires k < 5 && at + ENTRY_SIZE <= |img|
  {
    Get32(img, at + 4 * k)
  }

  function KindOf(img: seq<byte>, at: nat): nat requires at + ENTRY_SIZE <= |img| { Field(img, at, 0) }
  function NameOf(img: seq<byte>, at: nat): nat requires at + ENTRY_SIZE <= |img| { Field(img, at, 1) }
  function CountOf(img: seq<byte>, at: nat): nat requires at + ENTRY_SIZE <= |img| { Field(img, at, 2) }
  function ContentOf(img: seq<byte>, at: nat): nat requires at + ENTRY_SIZE <= |img| { Field(img, at, 3) }
  function NextOf(img: seq<byte>, at: nat): nat requires at + ENTRY_SIZE <= |img| { Field(img, at, 4) }

  /** The word at `k`, its lowest byte first. */
  function WordAt(img: seq<byte>, k: nat): nat
    requires k + 4 <= |img|
  {
    img[k] as int + 0x100 * img[k + 1] as int + 0x1_0000 * img[k + 2] as int + 0x100_0000 * img[k + 3] as int
  }

  /** struct id_entry: type, name, length or number of entries, offset of the content or the first entry, and next. */
  lemma EntryLayout(img: seq<byte>, at: nat)
    requires at + ENTRY_SIZE <= |img|
    ensures KindOf(img, at) == WordAt(img, at) && NameOf(img, at) == WordAt(img, at + 4)
    ensures CountOf(img, at) == WordAt(img, at + 8) && ContentOf(img, at) == WordAt(img, at + 12)
    ensures NextOf(img, at) == WordAt(img, at + 16)
  {
    forall k | 0 <= k < 5 ensures Field(img, at, k) == WordAt(img, at + 4 * k) { WordIs(img, at + 4 * k); }
    assert at + 4 * 0 == at;
  }

  lemma WordIs(img: seq<byte>, k: nat)
    requires k + 4 <= |img|
    ensures Get32(img, k) == WordAt(img, k)
  {
    forall j | k <= j < k + 4 ensures Value(img[j..k + 4]) == img[j] as int + 0x100 * Value(img[j + 1..k + 4]) {
      assert img[j..k + 4][1..] == img[j + 1..k + 4];
    }
    assert Value(img[k + 4..k + 4]) == 0 && Value(img[k + 2..k + 4]) == img[k + 2] as int + 0x100 * img[k + 3] as int;
  }

  /** The name field at offset `p` denotes `name`: a NUL-terminated string, or offset 0 for no name. */
  ghost predicate NameAt(img: seq<byte>, p: nat, name: seq<byte>) {
    if p == 0 then name == NO_NAME
    else p + |name| < |img| && img[p..p + |name|] == name && img[p + |name|] == 0 && 0 !in name
  }

  /** The offset of a directory's first entry, 0 when it has none. */
  function FirstOf(img: seq<byte>, at: nat): nat
    requires at + ENTRY_SIZE <= |img|
  {
    if CountOf(img, at) == 0 then 0 else ContentOf(img, at)
  }

  /** The number of entries in a tree, its root included. */
  function Entries(n: Node): (k: nat)
    ensures k > 0
    decreases n, 0
  {
    1 + match n case File(_, _) => 0 case Dir(_, es) => EntriesAll(es)
  }

  function EntriesAll(ns: seq<Node>): nat
    decreases ns
  {
    if ns == [] then 0 else Entries(ns[0]) + EntriesAll(ns[1..])
  }

  /** The entry at `at` describes `n`: fields, name, file bytes and, for a directory, the whole
      chain of entries reached through `content` and `next`. */
  ghost predicate Describes(img: seq<byte>, at: nat, n: Node)
    decreases n, 0
  {
    && at + ENTRY_SIZE <= |img|
    && NameAt(img, NameOf(img, at), n.name)
    && match n
       case File(_, content) =>
         && KindOf(img, at) == TYPE_FILE
         && CountOf(img, at) == |content|
         && (ContentOf(img, at) == 0 ==> content == [])
         && ContentOf(img, at) + |content| <= |img|
         && img[ContentOf(img, at)..ContentOf(img, at) + |content|] == content
       case Dir(_, entries) =>
         && KindOf(img, at) == TYPE_DIR
         && DescribesChain(img, FirstOf(img, at), entries)
  }

  /** Starting at offset `at` (0 for none), the `next` links run through exactly `ns`. */
  ghost predicate DescribesChain(img: seq<byte>, at: nat, ns: seq<Node>)
    decreases ns
  {
    if ns == [] then at == 0
    else at != 0 && Describes(img, at, ns[0]) && DescribesChain(img, NextOf(img, at), ns[1..])
  }

  /** Every directory's `count` is the number of its entries, as the format documents. */
  ghost predicate Counted(img: seq<byte>, at: nat, n: Node)
    requires Describes(img, at, n)
    decreases n, 0
  {
    n.Dir? ==>
      && CountOf(img, at) == |n.entries|
      && (n.entries != [] ==> CountedChain(img, ContentOf(img, at), n.entries))
  }

  ghost predicate CountedChain(img: seq<byte>, at: nat, ns: seq<Node>)
    requires DescribesChain(img, at, ns)
    decreases ns
  {
    ns != [] ==> Counted(img, at, ns[0]) && CountedChain(img, NextOf(img, at), ns[1..])
  }

  // ---------- the written image describes the tree ----------

  lemma FieldsOfEntry(img: seq<byte>, at: nat, kind: nat, name: nat, count: nat, content: nat,
                      next: nat)
    requires at + ENTRY_SIZE <= |img|
    requires kind < WORD && name < WORD && count < WORD && content < WORD && next < WORD
    requires img[at..at + ENTRY_SIZE] == EntryBytes(kind, name, count, content, next)
    ensures KindOf(img, at) == kind && NameOf(img, at) == name && CountOf(img, at) == count
    ensures ContentOf(img, at) == content && NextOf(img, at) == next
  {
    var f1, f2, f3, f4 := LE32(name), LE32(count), LE32(content), LE32(next);
    assert EntryBytes(kind, name, count, content, next) == LE32(kind) + (f1 + (f2 + (f3 + f4)));
    SplitSlice(img, at, LE32(kind), f1 + (f2 + (f3 + f4)));
    SplitSlice(img, at + 4, f1, f2 + (f3 + f4));
    SplitSlice(img, at + 8, f2, f3 + f4);
    SplitSlice(img, at + 12, f3, f4);
    Get32OfLE32(img, at, kind);
    Get32OfLE32(img, at + 4, name);
    Get32OfLE32(img, at + 8, count);
    Get32OfLE32(img, at + 12, content);
    Get32OfLE32(img, at + 16, next);
  }

  lemma NameWritten(img: seq<byte>, p: nat, name: seq<byte>)
    requires p != 0 && 0 !in name && p + |name| + 1 <= |img|
    requires img[p..p + |name| + 1] == name + [0]
    ensures NameAt(img, p, name)
  {
    SplitSlice(img, p, name, [0]);
    assert img[p + |name|] == img[p + |name|..p + |name| + 1][0];
  }

  /** The fields of an entry as mkinitrd writes them at `at`, with the name and what follows right behind. */
  ghost predicate WrittenEntry(img: seq<byte>, at: nat, kind: nat, name: seq<byte>, count: nat, next: nat) {
    && at + ENTRY_SIZE <= |img| && NameAt(img, NameOf(img, at), name)
    && KindOf(img, at) == kind && CountOf(img, at) == count && NextOf(img, at) == next
    && ContentOf(img, at) == at + ENTRY_SIZE + |name| + 1
  }

  /** A written entry at `at`: its fields read back, its name is a C string, and `tail` follows. */
  lemma EntryParts(img: seq<byte>, at: nat, kind: nat, count: nat, next: nat, name: seq<byte>,
                   tail: seq<byte>)
    requires kind < WORD && count < WORD && next < WORD && 0 !in name && |img| < WORD
    requires at + ENTRY_SIZE + |name| + 1 + |tail| <= |img|
    requires img[at..at + ENTRY_SIZE + |name| + 1 + |tail|] ==
             EntryBytes(kind, at + ENTRY_SIZE, count, at + ENTRY_SIZE + |name| + 1, next) + (name + [0]) + tail
    ensures WrittenEntry(img, at, kind, name, count, next)
    ensures var data := at + ENTRY_SIZE + |name| + 1; img[data..data + |tail|] == tail
  {
    var data := at + ENTRY_SIZE + |name| + 1;
    var head := EntryBytes(kind, at + ENTRY_SIZE, count, data, next);
    var mid := name + [0];
    assert head + mid + tail == head + (mid + tail);
    SplitSlice(img, at, head, mid + tail);
    SplitSlice(img, at + ENTRY_SIZE, mid, tail);
    FieldsOfEntry(img, at, kind, at + ENTRY_SIZE, count, data, next);
    NameWritten(img, at + ENTRY_SIZE, name);
  }

  lemma {:induction false} LayoutDescribes(img: seq<byte>, at: nat, n: Node, hasNext: bool)
    requires NulFree(n) && |img| < WORD && at + Extent(n) <= |img|
    requires img[at..at + Extent(n)] == Layout(n, at, hasNext)
    ensures Describes(img, at, n) && Counted(img, at, n)
    ensures NextOf(img, at) == if hasNext then at + Extent(n) else 0
    decreases n, 1
  {
    match n
    case File(_, _) =>
      FileParts(img, at, n, hasNext);
      FileDescribed(img, at, n, if hasNext then at + Extent(n) else 0);
    case Dir(_, _) =>
      DirLayoutDescribes(img, at, n, hasNext);
  }

  lemma {:induction false} DirLayoutDescribes(img: seq<byte>, at: nat, n: Node, hasNext: bool)
    requires n.Dir? && NulFree(n) && |img| < WORD && at + Extent(n) <= |img|
    requires img[at..at + Extent(n)] == Layout(n, at, hasNext)
    ensures Describes(img, at, n) && Counted(img, at, n)
    ensures NextOf(img, at) == if hasNext then at + Extent(n) else 0
    decreases n, 0
  {
    DirParts(img, at, n, hasNext);
    LayoutDescribesChain(img, at + ENTRY_SIZE + |n.name| + 1, n.entries);
    DirDescribed(img, at, n, if hasNext then at + Extent(n) else 0);
  }

  lemma FileDescribed(img: seq<byte>, at: nat, n: Node, next: nat)
    requires n.File? && WrittenEntry(img, at, TYPE_FILE, n.name, |n.content|, next)
    requires var data := at + ENTRY_SIZE + |n.name| + 1;
             data + |n.content| <= |img| && img[data..data + |n.content|] == n.content
    ensures Describes(img, at, n) && Counted(img, at, n) && NextOf(img, at) == next
  {
  }

  lemma DirDescribed(img: seq<byte>, at: nat, n: Node, next: nat)
    requires n.Dir? && WrittenEntry(img, at, TYPE_DIR, n.name, |n.entries|, next)
    requires var data := at + ENTRY_SIZE + |n.name| + 1;
             n.entries != [] ==> DescribesChain(img, data, n.entries) && CountedChain(img, data, n.entries)
    ensures Describes(img, at, n) && Counted(img, at, n) && NextOf(img, at) == next
  {
    assert n.entries == [] ==> FirstOf(img, at) == 0;
  }

  lemma FileParts(img: seq<byte>, at: nat, n: Node, hasNext: bool)
    requires n.File? && 0 !in n.name && |img| < WORD && at + Extent(n) <= |img|
    requires img[at..at + Extent(n)] == Layout(n, at, hasNext)
    ensures WrittenEntry(img, at, TYPE_FILE, n.name, |n.content|, if hasNext then at + Extent(n) else 0)
    ensures var data := at + ENTRY_SIZE + |n.name| + 1;
            data + |n.content| <= |img| && img[data..data + |n.content|] == n.content
  {
    EntryParts(img, at, TYPE_FILE, |n.content|, if hasNext then at + Extent(n) else 0, n.name, n.content);
  }

  lemma DirParts(img: seq<byte>, at: nat, n: Node, hasNext: bool)
    requires n.Dir? && 0 !in n.name && |img| < WORD && at + Extent(n) <= |img|
    requires img[at..at + Extent(n)] == Layout(n, at, hasNext)
    ensures WrittenEntry(img, at, TYPE_DIR, n.name, |n.entries|, if hasNext then at + Extent(n) else 0)
    ensures var data := at + ENTRY_SIZE + |n.name| + 1;
            && data + ExtentAll(n.entries) <= |img|
            && img[data..data + ExtentAll(n.entries)] == LayoutAll(n.entries, data)
  {
    var tail := LayoutAll(n.entries, at + ENTRY_SIZE + |n.name| + 1);
    ExtentBoundsCount(n.entries);
    DirShape(n, at, hasNext, tail);
    EntryParts(img, at, TYPE_DIR, |n.entries|, if hasNext then at + Extent(n) else 0, n.name, tail);
  }

  lemma DirShape(n: Node, at: nat, hasNext: bool, tail: seq<byte>)
    requires n.Dir? && tail == LayoutAll(n.entries, at + ENTRY_SIZE + |n.name| + 1)
    ensures Extent(n) == ENTRY_SIZE + |n.name| + 1 + |tail| && |tail| == ExtentAll(n.entries)
    ensures Layout(n, at, hasNext) ==
            EntryBytes(TYPE_DIR, at + ENTRY_SIZE, |n.entries|, at + ENTRY_SIZE + |n.name| + 1,
                       if hasNext then at + Extent(n) else 0)
            + (n.name + [0]) + tail
  {
  }

  lemma {:induction false} ExtentBoundsCount(ns: seq<Node>)
    ensures |ns| <= ExtentAll(ns)
  {
    if ns != [] { ExtentBoundsCount(ns[1..]); }
  }

  lemma {:induction false} LayoutDescribesChain(img: seq<byte>, at: nat, ns: seq<Node>)
    requires forall i | 0 <= i < |ns| :: NulFree(ns[i])
    requires |img| < WORD && at + ExtentAll(ns) <= |img| && at != 0
    requires img[at..at + ExtentAll(ns)] == LayoutAll(ns, at)
    ensures ns != [] ==> ToldAll(img, at, ns)
    decreases ns, 1
  {
    if ns != [] {
      var rest := at + Extent(ns[0]);
      ChainParts(img, at, ns);
      FirstDescribed(img, at, ns, rest);
      LayoutDescribesChain(img, rest, ns[1..]);
      ChainDescribed(img, at, ns, rest);
    }
  }

  lemma {:induction false} FirstDescribed(img: seq<byte>, at: nat, ns: seq<Node>, rest: nat)
    requires ns != [] && NulFree(ns[0]) && |img| < WORD && rest == at + Extent(ns[0]) <= |img|
    requires img[at..rest] == Layout(ns[0], at, |ns| > 1)
    ensures Told(img, at, ns[0], if |ns| > 1 then rest else 0)
    decreases ns, 0
  {
    LayoutDescribes(img, at, ns[0], |ns| > 1);
  }

  ghost predicate Told(img: seq<byte>, at: nat, n: Node, next: nat) {
    Describes(img, at, n) && Counted(img, at, n) && NextOf(img, at) == next
  }

  ghost predicate ToldAll(img: seq<byte>, at: nat, ns: seq<Node>) {
    DescribesChain(img, at, ns) && CountedChain(img, at, ns)
  }

  lemma ChainParts(img: seq<byte>, at: nat, ns: seq<Node>)
    requires ns != [] && at + ExtentAll(ns) <= |img| && img[at..at + ExtentAll(ns)] == LayoutAll(ns, at)
    ensures var rest := at + Extent(ns[0]);
            && rest + ExtentAll(ns[1..]) == at + ExtentAll(ns)
            && img[at..rest] == Layout(ns[0], at, |ns| > 1)
            && img[rest..rest + ExtentAll(ns[1..])] == LayoutAll(ns[1..], rest)
  {
    SplitSlice(img, at, Layout(ns[0], at, |ns| > 1), LayoutAll(ns[1..], at + Extent(ns[0])));
  }

  /** One entry in front of a described chain. */
  lemma ChainDescribed(img: seq<byte>, at: nat, ns: seq<Node>, rest: nat)
    requires ns != [] && at != 0 && Told(img, at, ns[0], if |ns| > 1 then rest else 0)
    requires ns[1..] != [] ==> ToldAll(img, rest, ns[1..])
    ensures ToldAll(img, at, ns)
  {
    assert |ns| == 1 ==> ns[1..] == [];
  }

  /** The written image of any tree with C-string names, if it fits 31 bits, describes that tree. */
  lemma ImageDescribes(root: Node)
    requires NulFree(root) && HEADER_SIZE + Extent(root) < 0x8000_0000
    ensures Describes(Image(root), HEADER_SIZE, root) && Counted(Image(root), HEADER_SIZE, root)
    ensures Image(root)[..HEADER_SIZE] == HEADER
  {
    var img := Image(root);
    assert img[HEADER_SIZE..HEADER_SIZE + Extent(root)] == Layout(root, HEADER_SIZE, false);
    LayoutDescribes(img, HEADER_SIZE, root, false);
  }
}
