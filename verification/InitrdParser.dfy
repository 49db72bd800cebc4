/** The kernel's initrd parser (kernel/fs/initrd.c) on arbitrary images. Every link followed costs one unit
    of fuel; `InitrdCircle` shows that an image runs out of any amount exactly if its links run in a circle. */
module InitrdParser {
  import opened Common
  import opened InitrdFormat

  /** How a parse ends: a result, a kernel panic, a read outside the image, or no end in sight. */
  datatype Outcome<+T> = Ok(value: T) | Panic | Wild | OutOfFuel

  /** The kernel's inode: `impl` of a file is the offset of its bytes (0 for a null pointer), `length`
      the entry's count. */
  datatype Inode =
    | FileInode(name: seq<byte>, length: nat, impl: nat)
    | DirInode(name: seq<byte>, length: nat, entries: seq<Inode>)

  /** Put `done` in front of a successful result. */
  function Prefixed<T>(done: seq<T>, rest: Outcome<seq<T>>): Outcome<seq<T>> {
    match rest
    case Ok(es) => Ok(done + es)
    case Panic => Panic
    case Wild => Wild
    case OutOfFuel => OutOfFuel
  }

  function Then<T>(e: T, rest: Outcome<seq<T>>): Outcome<seq<T>> {
    Prefixed([e], rest)
  }

  lemma PrefixedEmpty<T>(rest: Outcome<seq<T>>)
    ensures Prefixed([], rest) == rest
  {
    if rest.Ok? { assert [] + rest.value == rest.value; }
  }

  lemma PrefixedThen<T>(done: seq<T>, e: T, rest: Outcome<seq<T>>)
    ensures Prefixed(done, Then(e, rest)) == Prefixed(done + [e], rest)
  {
    if rest.Ok? { assert done + ([e] + rest.value) == (done + [e]) + rest.value; }
  }

  // ---------- specification ----------

  /** The C string at `p`, or `Wild` when no NUL follows inside the image. */
  function CString(img: seq<byte>, p: nat): (r: Outcome<seq<byte>>)
    ensures r.Ok? || r.Wild?
    decreases |img| - p
  {
    if p >= |img| then Wild
    else if img[p] == 0 then Ok([])
    else Then(img[p], CString(img, p + 1))
  }

  function InodeName(img: seq<byte>, p: nat): (r: Outcome<seq<byte>>)
    ensures r.Ok? || r.Wild?
  {
    if p == 0 then Ok(NO_NAME) else CString(img, p)
  }

  function FileAt(img: seq<byte>, at: nat): (r: Outcome<Inode>)
    requires at + ENTRY_SIZE <= |img|
    ensures r.Ok? || r.Wild?
  {
    match InodeName(img, NameOf(img, at))
    case Ok(name) => Ok(FileInode(name, CountOf(img, at), ContentOf(img, at)))
    case _ => Wild
  }

  function DirAt(img: seq<byte>, at: nat, fuel: nat): Outcome<Inode>
    decreases fuel, 1
  {
    if at + ENTRY_SIZE > |img| then Wild
    else if KindOf(img, at) != TYPE_DIR then Panic
    else match InodeName(img, NameOf(img, at))
      case Ok(name) =>
        (match ChainAt(img, FirstOf(img, at), fuel)
         case Ok(es) => Ok(DirInode(name, CountOf(img, at), es))
         case Panic => Panic
         case Wild => Wild
         case OutOfFuel => OutOfFuel)
      case _ => Wild
  }

  function EntryAt(img: seq<byte>, at: nat, fuel: nat): Outcome<Inode>
    decreases fuel, 2
  {
    if at + ENTRY_SIZE > |img| then Wild
    else if KindOf(img, at) == TYPE_FILE then FileAt(img, at)
    else if KindOf(img, at) == TYPE_DIR then DirAt(img, at, fuel)
    else Panic
  }

  function ChainAt(img: seq<byte>, at: nat, fuel: nat): Outcome<seq<Inode>>
    decreases fuel, 0
  {
    if at == 0 then Ok([])
    else if fuel == 0 then OutOfFuel
    else match EntryAt(img, at, fuel - 1)
      case Ok(e) => Then(e, ChainAt(img, NextOf(img, at), fuel - 1))
      case Panic => Panic
      case Wild => Wild
      case OutOfFuel => OutOfFuel
  }

  // ---------- the entries visited ----------

  /** The offsets of the entries parsed, in order, or how the parse fails. */
  function DirVisits(img: seq<byte>, at: nat, fuel: nat): Outcome<seq<nat>>
    decreases fuel, 1
  {
    if at + ENTRY_SIZE > |img| then Wild
    else if KindOf(img, at) != TYPE_DIR then Panic
    else if !InodeName(img, NameOf(img, at)).Ok? then Wild
    else Then(at, ChainVisits(img, FirstOf(img, at), fuel))
  }

  function EntryVisits(img: seq<byte>, at: nat, fuel: nat): Outcome<seq<nat>>
    decreases fuel, 2
  {
    if at + ENTRY_SIZE > |img| then Wild
    else if KindOf(img, at) == TYPE_FILE then if InodeName(img, NameOf(img, at)).Ok? then Ok([at]) else Wild
    else if KindOf(img, at) == TYPE_DIR then DirVisits(img, at, fuel)
    else Panic
  }

  function ChainVisits(img: seq<byte>, at: nat, fuel: nat): Outcome<seq<nat>>
    decreases fuel, 0
  {
    if at == 0 then Ok([])
    else if fuel == 0 then OutOfFuel
    else match EntryVisits(img, at, fuel - 1)
      case Ok(seen) => Prefixed(seen, ChainVisits(img, NextOf(img, at), fuel - 1))
      case r => r
  }

  /** A parse that ended like `r` after visiting `seen`. */
  function Visited<T>(r: Outcome<T>, seen: seq<nat>): Outcome<seq<nat>> {
    match r
    case Ok(_) => Ok(seen)
    case Panic => Panic
    case Wild => Wild
    case OutOfFuel => OutOfFuel
  }

  lemma PrefixedPrefixed<T>(a: seq<T>, b: seq<T>, rest: Outcome<seq<T>>)
    ensures Prefixed(a, Prefixed(b, rest)) == Prefixed(a + b, rest)
  {
    if rest.Ok? { assert a + (b + rest.value) == (a + b) + rest.value; }
  }

  // ---------- the parser itself ----------

  method ReadName(img: seq<byte>, p: nat) returns (r: Outcome<seq<byte>>)
    ensures r == InodeName(img, p)
  {
    if p == 0 { return Ok(NO_NAME); }
    var q: nat, name: seq<byte> := p, [];
    PrefixedEmpty(CString(img, p));
    while q < |img| && img[q] != 0
      invariant p <= q
      invariant CString(img, p) == Prefixed(name, CString(img, q))
    {
      PrefixedThen(name, img[q], CString(img, q + 1));
      name := name + [img[q]];
      q := q + 1;
    }
    r := if q >= |img| then Wild else Ok(name);
    assert name + [] == name;
  }

  method ParseFile(img: seq<byte>, at: nat) returns (r: Outcome<Inode>)
    requires at + ENTRY_SIZE <= |img|
    ensures r == FileAt(img, at)
  {
    var name := ReadName(img, NameOf(img, at));
    if !name.Ok? { return Wild; }
    r := Ok(FileInode(name.value, CountOf(img, at), ContentOf(img, at)));
  }

  /** One entry of a directory; `seen` records the entries whose fields were read. */
  method ParseEntry(img: seq<byte>, at: nat, fuel: nat) returns (r: Outcome<Inode>, ghost seen: seq<nat>)
    ensures r == EntryAt(img, at, fuel)
    ensures Visited(r, seen) == EntryVisits(img, at, fuel)
    decreases fuel, 2
  {
    seen := [];
    if at + ENTRY_SIZE > |img| { r := Wild; return; }
    if KindOf(img, at) == TYPE_FILE {
      seen := [at];
      r := ParseFile(img, at);
    } else if KindOf(img, at) == TYPE_DIR {
      r, seen := ParseDir(img, at, fuel);
    } else {
      r := Panic;
    }
  }

  method ParseDir(img: seq<byte>, at: nat, fuel: nat) returns (r: Outcome<Inode>, ghost seen: seq<nat>)
    ensures r == DirAt(img, at, fuel)
    ensures Visited(r, seen) == DirVisits(img, at, fuel)
    decreases fuel, 1
  {
    seen := [];
    if at + ENTRY_SIZE > |img| { r := Wild; return; }
    seen := [at];
    if KindOf(img, at) != TYPE_DIR { r := Panic; return; }
    var name := ReadName(img, NameOf(img, at));
    if !name.Ok? { r := Wild; return; }
    var es: Outcome<seq<Inode>> := Ok([]);
    assert [at] + [] == [at];
    if CountOf(img, at) > 0 {
      ghost var below;
      es, below := ParseEntries(img, ContentOf(img, at), fuel);
      seen := seen + below;
    }
    match es
    case Ok(entries) => r := Ok(DirInode(name.value, CountOf(img, at), entries));
    case Panic => r := Panic;
    case Wild => r := Wild;
    case OutOfFuel => r := OutOfFuel;
  }

  /** The loop of parse_dir over the linked entries. */
  method ParseEntries(img: seq<byte>, first: nat, fuel: nat) returns (r: Outcome<seq<Inode>>, ghost seen: seq<nat>)
    ensures r == ChainAt(img, first, fuel)
    ensures Visited(r, seen) == ChainVisits(img, first, fuel)
    decreases fuel, 0
  {
    var entries: seq<Inode>, entry: nat, left: nat := [], first, fuel;
    seen := [];
    PrefixedEmpty(ChainAt(img, first, fuel));
    PrefixedEmpty(ChainVisits(img, first, fuel));
    while entry != 0
      invariant left <= fuel
      invariant ChainAt(img, first, fuel) == Prefixed(entries, ChainAt(img, entry, left))
      invariant ChainVisits(img, first, fuel) == Prefixed(seen, ChainVisits(img, entry, left))
      decreases left
    {
      if left == 0 { r := OutOfFuel; return; }
      var e: Outcome<Inode>;
      ghost var below;
      e, below := ParseEntry(img, entry, left - 1);
      match e
      case Ok(ino) =>
        PrefixedThen(entries, ino, ChainAt(img, NextOf(img, entry), left - 1));
        PrefixedPrefixed(seen, below, ChainVisits(img, NextOf(img, entry), left - 1));
        entries, seen := entries + [ino], seen + below;
        entry, left := NextOf(img, entry), left - 1;
      case Panic => r := Panic; return;
      case Wild => r := Wild; return;
      case OutOfFuel => r := OutOfFuel; return;
    }
    assert entries + [] == entries && seen + [] == seen;
    r := Ok(entries);
  }

  predicate CheckImg(img: seq<byte>) {
    |img| >= HEADER_SIZE && img[..HEADER_SIZE] == HEADER
  }

  /** init_initrd: check the header, then parse the root directory behind it. */
  method InitInitrd(img: seq<byte>, fuel: nat) returns (r: Outcome<Inode>, ghost seen: seq<nat>)
    ensures r == if CheckImg(img) then DirAt(img, HEADER_SIZE, fuel) else Panic
    ensures Visited(r, seen) == if CheckImg(img) then DirVisits(img, HEADER_SIZE, fuel) else Panic
  {
    seen := [];
    if !CheckImg(img) { r := Panic; return; }
    r, seen := ParseDir(img, HEADER_SIZE, fuel);
  }

  // ---------- the tree an inode stands for ----------

  /** The tree behind an inode, reading the file bytes from the image. */
  function TreeOf(img: seq<byte>, ino: Inode): (n: Node)
    decreases ino, 0
  {
    match ino
    case FileInode(name, length, impl) =>
      File(name, if impl + length <= |img| then img[impl..impl + length] else [])
    case DirInode(name, _, entries) => Dir(name, TreesOf(img, entries))
  }

  function TreesOf(img: seq<byte>, es: seq<Inode>): (ns: seq<Node>)
    ensures |ns| == |es|
    decreases es
  {
    if es == [] then [] else [TreeOf(img, es[0])] + TreesOf(img, es[1..])
  }

  /** Every file's bytes lie inside the image. The parser does not look: it only stores the pointer. */
  predicate InImage(img: seq<byte>, ino: Inode) {
    match ino
    case FileInode(_, length, impl) => impl + length <= |img| && (impl == 0 ==> length == 0)
    case DirInode(_, _, entries) => forall i | 0 <= i < |entries| :: InImage(img, entries[i])
  }

  predicate AllInImage(img: seq<byte>, es: seq<Inode>) {
    forall i | 0 <= i < |es| :: InImage(img, es[i])
  }

  // ---------- soundness: what the parser returns is what the image describes ----------

  lemma {:induction false} CStringIsName(img: seq<byte>, p: nat)
    ensures match CString(img, p)
            case Ok(name) => p + |name| < |img| && img[p..p + |name|] == name && img[p + |name|] == 0 && 0 !in name
            case _ => true
    decreases |img| - p
  {
    if p < |img| && img[p] != 0 {
      CStringIsName(img, p + 1);
      if CString(img, p + 1).Ok? {
        var rest := CString(img, p + 1).value;
        assert img[p..p + 1 + |rest|] == [img[p]] + img[p + 1..p + 1 + |rest|];
      }
    }
  }

  lemma {:induction false} NameIsCString(img: seq<byte>, p: nat, name: seq<byte>)
    requires p + |name| < |img| && img[p..p + |name|] == name && img[p + |name|] == 0 && 0 !in name
    ensures CString(img, p) == Ok(name)
    decreases |name|
  {
    if name != [] {
      assert img[p] == name[0];
      assert img[p + 1..p + 1 + |name[1..]|] == img[p..p + |name|][1..];
      NameIsCString(img, p + 1, name[1..]);
      assert name == [name[0]] + name[1..];
    }
  }

  lemma NameParsed(img: seq<byte>, p: nat, name: seq<byte>)
    ensures NameAt(img, p, name) <==> InodeName(img, p) == Ok(name)
  {
    if p != 0 {
      CStringIsName(img, p);
      if NameAt(img, p, name) { NameIsCString(img, p, name); }
    }
  }

  lemma {:induction false} ParseSound(img: seq<byte>, at: nat, fuel: nat)
    ensures EntryAt(img, at, fuel).Ok? && InImage(img, EntryAt(img, at, fuel).value) ==>
              Describes(img, at, TreeOf(img, EntryAt(img, at, fuel).value))
    decreases fuel, 1
  {
    var r := EntryAt(img, at, fuel);
    if r.Ok? && InImage(img, r.value) {
      var ino := r.value;
      NameParsed(img, NameOf(img, at), ino.name);
      if ino.DirInode? { ParseChainSound(img, FirstOf(img, at), fuel); }
    }
  }

  lemma {:induction false} ParseChainSound(img: seq<byte>, at: nat, fuel: nat)
    ensures ChainAt(img, at, fuel).Ok? && AllInImage(img, ChainAt(img, at, fuel).value) ==>
              DescribesChain(img, at, TreesOf(img, ChainAt(img, at, fuel).value))
    decreases fuel, 0
  {
    if at != 0 && ChainAt(img, at, fuel).Ok? && AllInImage(img, ChainAt(img, at, fuel).value) {
      AllInImageCons(img, EntryAt(img, at, fuel - 1).value, ChainAt(img, NextOf(img, at), fuel - 1).value);
      ParseSound(img, at, fuel - 1);
      ParseChainSound(img, NextOf(img, at), fuel - 1);
      var e, es := EntryAt(img, at, fuel - 1).value, ChainAt(img, NextOf(img, at), fuel - 1).value;
      TreesOfCons(img, e, es);
      ChainCons(img, at, TreeOf(img, e), TreesOf(img, es));
    }
  }

  lemma AllInImageCons(img: seq<byte>, e: Inode, es: seq<Inode>)
    ensures AllInImage(img, [e] + es) <==> InImage(img, e) && AllInImage(img, es)
  {
    assert ([e] + es)[0] == e;
    assert forall i | 0 <= i < |es| :: ([e] + es)[i + 1] == es[i];
  }

  lemma TreesOfCons(img: seq<byte>, e: Inode, es: seq<Inode>)
    ensures TreesOf(img, [e] + es) == [TreeOf(img, e)] + TreesOf(img, es)
  {
    assert ([e] + es)[1..] == es;
  }

  lemma ChainCons(img: seq<byte>, at: nat, n: Node, ns: seq<Node>)
    requires at != 0 && Describes(img, at, n) && DescribesChain(img, NextOf(img, at), ns)
    ensures DescribesChain(img, at, [n] + ns)
  {
    assert ([n] + ns)[1..] == ns;
  }

  // ---------- completeness: an image that describes a tree parses to it ----------

  lemma {:induction false} ParseComplete(img: seq<byte>, at: nat, n: Node, fuel: nat)
    requires Describes(img, at, n) && fuel + 1 >= Entries(n)
    ensures EntryAt(img, at, fuel).Ok? && InImage(img, EntryAt(img, at, fuel).value)
    ensures TreeOf(img, EntryAt(img, at, fuel).value) == n
    decreases n, 0
  {
    NameParsed(img, NameOf(img, at), n.name);
    if n.Dir? { ParseChainComplete(img, FirstOf(img, at), n.entries, fuel); }
  }

  /** One entry in front of a parsed chain. */
  lemma ChainExtended(img: seq<byte>, at: nat, ns: seq<Node>, fuel: nat, e: Inode, es: seq<Inode>)
    requires at != 0 && fuel > 0 && at + ENTRY_SIZE <= |img| && ns != []
    requires EntryAt(img, at, fuel - 1) == Ok(e) && ChainAt(img, NextOf(img, at), fuel - 1) == Ok(es)
    requires InImage(img, e) && AllInImage(img, es) && TreeOf(img, e) == ns[0] && TreesOf(img, es) == ns[1..]
    ensures ChainAt(img, at, fuel).Ok? && AllInImage(img, ChainAt(img, at, fuel).value)
    ensures TreesOf(img, ChainAt(img, at, fuel).value) == ns
  {
    ChainStep(img, at, fuel, e, es);
    TreesExtended(img, ns, e, es);
  }

  lemma ChainStep(img: seq<byte>, at: nat, fuel: nat, e: Inode, es: seq<Inode>)
    requires at != 0 && fuel > 0 && at + ENTRY_SIZE <= |img|
    requires EntryAt(img, at, fuel - 1) == Ok(e) && ChainAt(img, NextOf(img, at), fuel - 1) == Ok(es)
    ensures ChainAt(img, at, fuel) == Ok([e] + es)
  {
  }

  lemma TreesExtended(img: seq<byte>, ns: seq<Node>, e: Inode, es: seq<Inode>)
    requires ns != [] && InImage(img, e) && AllInImage(img, es) && TreeOf(img, e) == ns[0] && TreesOf(img, es) == ns[1..]
    ensures AllInImage(img, [e] + es) && TreesOf(img, [e] + es) == ns
  {
    TreesOfCons(img, e, es);
    AllInImageCons(img, e, es);
    assert [ns[0]] + ns[1..] == ns;
  }

  lemma {:induction false} ParseChainComplete(img: seq<byte>, at: nat, ns: seq<Node>, fuel: nat)
    requires DescribesChain(img, at, ns) && fuel >= EntriesAll(ns)
    ensures ChainAt(img, at, fuel).Ok? && AllInImage(img, ChainAt(img, at, fuel).value)
    ensures TreesOf(img, ChainAt(img, at, fuel).value) == ns
    decreases ns
  {
    if ns != [] {
      ParseComplete(img, at, ns[0], fuel - 1);
      ParseChainComplete(img, NextOf(img, at), ns[1..], fuel - 1);
      ChainExtended(img, at, ns, fuel, EntryAt(img, at, fuel - 1).value, ChainAt(img, NextOf(img, at), fuel - 1).value);
    }
  }

  /** The length of a directory's inode is the number of its entries, and so below it. */
  predicate Sized(ino: Inode) {
    ino.DirInode? ==> ino.length == |ino.entries| && forall i | 0 <= i < |ino.entries| :: Sized(ino.entries[i])
  }

  predicate AllSized(es: seq<Inode>) {
    forall i | 0 <= i < |es| :: Sized(es[i])
  }

  /** That is so exactly if the counts in the image are true. */
  lemma {:induction false} SizedIff(img: seq<byte>, at: nat, n: Node, fuel: nat)
    requires Describes(img, at, n) && fuel + 1 >= Entries(n)
    ensures EntryAt(img, at, fuel).Ok? && (Sized(EntryAt(img, at, fuel).value) <==> Counted(img, at, n))
    decreases n, 0
  {
    ParseComplete(img, at, n, fuel);
    if n.Dir? {
      ParseChainComplete(img, FirstOf(img, at), n.entries, fuel);
      SizedChainIff(img, FirstOf(img, at), n.entries, fuel);
      DirSized(img, at, fuel, ChainAt(img, FirstOf(img, at), fuel).value);
    }
  }

  lemma DirSized(img: seq<byte>, at: nat, fuel: nat, es: seq<Inode>)
    requires at + ENTRY_SIZE <= |img| && KindOf(img, at) == TYPE_DIR && EntryAt(img, at, fuel).Ok?
    requires ChainAt(img, FirstOf(img, at), fuel) == Ok(es)
    ensures Sized(EntryAt(img, at, fuel).value) <==> CountOf(img, at) == |es| && AllSized(es)
  {
    assert EntryAt(img, at, fuel).value.entries == es;
  }

  lemma {:induction false} SizedChainIff(img: seq<byte>, at: nat, ns: seq<Node>, fuel: nat)
    requires DescribesChain(img, at, ns) && fuel >= EntriesAll(ns)
    ensures ChainAt(img, at, fuel).Ok? && |ChainAt(img, at, fuel).value| == |ns|
    ensures AllSized(ChainAt(img, at, fuel).value) <==> CountedChain(img, at, ns)
    decreases ns
  {
    if ns != [] {
      SizedIff(img, at, ns[0], fuel - 1);
      SizedChainIff(img, NextOf(img, at), ns[1..], fuel - 1);
      var e, es := EntryAt(img, at, fuel - 1).value, ChainAt(img, NextOf(img, at), fuel - 1).value;
      ChainStep(img, at, fuel, e, es);
      assert AllSized([e] + es) <==> Sized(e) && AllSized(es) by {
        if AllSized([e] + es) {
          assert Sized(([e] + es)[0]);
          forall i | 0 <= i < |es| ensures Sized(es[i]) { assert Sized(([e] + es)[i + 1]); }
        }
      }
    }
  }

  /** The parser returned `root`, and no file of it reaches out of the image. */
  ghost predicate ParsesTo(img: seq<byte>, fuel: nat, root: Node) {
    var r := DirAt(img, HEADER_SIZE, fuel);
    r.Ok? && InImage(img, r.value) && TreeOf(img, r.value) == root
  }

  /** The parser returns a tree exactly when the image describes it behind its header. */
  lemma ParsesIffDescribed(img: seq<byte>, root: Node)
    requires root.Dir?
    ensures Describes(img, HEADER_SIZE, root) <==> exists fuel: nat :: ParsesTo(img, fuel, root)
  {
    if Describes(img, HEADER_SIZE, root) {
      ParseComplete(img, HEADER_SIZE, root, Entries(root));
      assert ParsesTo(img, Entries(root), root);
    }
    forall fuel: nat | ParsesTo(img, fuel, root)
      ensures Describes(img, HEADER_SIZE, root)
    {
      ParseSound(img, HEADER_SIZE, fuel);
      assert EntryAt(img, HEADER_SIZE, fuel) == DirAt(img, HEADER_SIZE, fuel);
    }
  }

  // ---------- fuel is only a bound ----------

  lemma {:induction false} EntryFuel(img: seq<byte>, at: nat, fuel: nat, more: nat)
    requires fuel <= more && !EntryAt(img, at, fuel).OutOfFuel?
    ensures EntryAt(img, at, more) == EntryAt(img, at, fuel)
    decreases fuel, 1
  {
    if at + ENTRY_SIZE <= |img| && KindOf(img, at) == TYPE_DIR && InodeName(img, NameOf(img, at)).Ok? {
      ChainFuel(img, FirstOf(img, at), fuel, more);
    }
  }

  /** A parse that ends, ends the same way with any larger amount of fuel. */
  lemma {:induction false} ChainFuel(img: seq<byte>, at: nat, fuel: nat, more: nat)
    requires fuel <= more && !ChainAt(img, at, fuel).OutOfFuel?
    ensures ChainAt(img, at, more) == ChainAt(img, at, fuel)
    decreases fuel, 0
  {
    if at != 0 {
      EntryFuel(img, at, fuel - 1, more - 1);
      if EntryAt(img, at, fuel - 1).Ok? { ChainFuel(img, NextOf(img, at), fuel - 1, more - 1); }
    }
  }
}
