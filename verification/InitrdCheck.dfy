/** chkid's walk over an image (share/src/chkid/initrd.c:65-113), driven by `count` where the kernel's
    parser is driven by `next`, and the comparison of the two. */
module InitrdCheck {
  import opened Common
  import opened InitrdFormat
  import opened InitrdParser

  /** `count` read as a C `int`: the loop runs zero times when it is negative. */
  function Rounds(count: nat): nat {
    if count < 0x8000_0000 then count else 0
  }

  // ---------- the offsets each walk looks at, in order ----------

  /** check_dir; `fuel` bounds the nesting depth. */
  function DirWalk(img: seq<byte>, at: nat, fuel: nat): Outcome<seq<nat>>
    decreases fuel, 0
  {
    if fuel == 0 then OutOfFuel
    else if at + ENTRY_SIZE > |img| || !CString(img, NameOf(img, at)).Ok? then Wild
    else Then(at, LoopWalk(img, ContentOf(img, at), Rounds(CountOf(img, at)), fuel - 1))
  }

  function LoopWalk(img: seq<byte>, at: nat, rounds: nat, fuel: nat): Outcome<seq<nat>>
    decreases fuel, rounds + 1
  {
    if rounds == 0 then Ok([])
    else if at + ENTRY_SIZE > |img| then Wild
    else match EntryWalk(img, at, fuel)
      case Ok(seen) => Prefixed(seen, LoopWalk(img, NextOf(img, at), rounds - 1, fuel))
      case r => r
  }

  function EntryWalk(img: seq<byte>, at: nat, fuel: nat): Outcome<seq<nat>>
    requires at + ENTRY_SIZE <= |img|
    decreases fuel, 1
  {
    if KindOf(img, at) == TYPE_FILE then if CString(img, NameOf(img, at)).Ok? then Ok([at]) else Wild
    else if KindOf(img, at) == TYPE_DIR then DirWalk(img, at, fuel)
    else Panic
  }

  // ---------- chkid itself ----------

  method CheckDir(img: seq<byte>, at: nat, fuel: nat) returns (r: Outcome<seq<nat>>)
    ensures r == DirWalk(img, at, fuel)
    decreases fuel
  {
    if fuel == 0 { return OutOfFuel; }
    if at + ENTRY_SIZE > |img| { return Wild; }
    var name := CString(img, NameOf(img, at));
    if !name.Ok? { return Wild; }
    var offs: nat, seen: seq<nat>, n := ContentOf(img, at), [at], Rounds(CountOf(img, at));
    var i: nat := 0;
    while i < n
      invariant 0 <= i <= n
      invariant DirWalk(img, at, fuel) == Prefixed(seen, LoopWalk(img, offs, n - i, fuel - 1))
    {
      if offs + ENTRY_SIZE > |img| { return Wild; }
      ghost var rest := LoopWalk(img, NextOf(img, offs), n - i - 1, fuel - 1);
      if KindOf(img, offs) == TYPE_FILE {
        var fileName := CString(img, NameOf(img, offs));
        if !fileName.Ok? { return Wild; }
        PrefixedPrefixed(seen, [offs], rest);
        seen := seen + [offs];
      } else if KindOf(img, offs) == TYPE_DIR {
        var sub := CheckDir(img, offs, fuel - 1);
        if !sub.Ok? { return sub; }
        PrefixedPrefixed(seen, sub.value, rest);
        seen := seen + sub.value;
      } else {
        return Panic;
      }
      offs, i := NextOf(img, offs), i + 1;
    }
    r := Ok(seen);
    assert seen + [] == seen;
  }

  // ---------- both walks on an image with true counts ----------

  /** The offsets of the entries of a described tree, in preorder. */
  ghost function Offsets(img: seq<byte>, at: nat, n: Node): seq<nat>
    requires Describes(img, at, n)
    decreases n, 0
  {
    [at] + if n.Dir? then OffsetsAll(img, FirstOf(img, at), n.entries) else []
  }

  ghost function OffsetsAll(img: seq<byte>, at: nat, ns: seq<Node>): seq<nat>
    requires DescribesChain(img, at, ns)
    decreases ns
  {
    if ns == [] then [] else Offsets(img, at, ns[0]) + OffsetsAll(img, NextOf(img, at), ns[1..])
  }

  lemma {:induction false} KernelWalkIs(img: seq<byte>, at: nat, n: Node, fuel: nat)
    requires Describes(img, at, n) && fuel + 1 >= Entries(n)
    ensures EntryVisits(img, at, fuel) == Ok(Offsets(img, at, n))
    decreases n, 0
  {
    NameParsed(img, NameOf(img, at), n.name);
    match n
    case File(_, _) => assert [at] + [] == [at];
    case Dir(_, entries) => KernelChainWalkIs(img, FirstOf(img, at), entries, fuel);
  }

  lemma {:induction false} KernelChainWalkIs(img: seq<byte>, at: nat, ns: seq<Node>, fuel: nat)
    requires DescribesChain(img, at, ns) && fuel >= EntriesAll(ns)
    ensures ChainVisits(img, at, fuel) == Ok(OffsetsAll(img, at, ns))
    decreases ns
  {
    if ns != [] {
      KernelWalkIs(img, at, ns[0], fuel - 1);
      KernelChainWalkIs(img, NextOf(img, at), ns[1..], fuel - 1);
    }
  }

  lemma {:induction false} NameReadable(img: seq<byte>, at: nat, name: seq<byte>)
    requires CheckImg(img) && at + ENTRY_SIZE <= |img| && NameAt(img, NameOf(img, at), name)
    ensures CString(img, NameOf(img, at)).Ok?
  {
    if NameOf(img, at) == 0 {
      NameIsCString(img, 0, img[..3]);
    } else {
      NameIsCString(img, NameOf(img, at), name);
    }
  }

  lemma {:induction false} DirWalkIs(img: seq<byte>, at: nat, n: Node, fuel: nat)
    requires CheckImg(img) && n.Dir? && Describes(img, at, n) && Counted(img, at, n)
    requires Entries(n) < 0x8000_0000 && fuel >= Entries(n)
    ensures DirWalk(img, at, fuel) == Ok(Offsets(img, at, n))
    decreases n, 0
  {
    NameReadable(img, at, n.name);
    EntriesCount(n.entries);
    LoopWalkIs(img, ContentOf(img, at), n.entries, fuel - 1);
  }

  lemma {:induction false} LoopWalkIs(img: seq<byte>, at: nat, ns: seq<Node>, fuel: nat)
    requires CheckImg(img) && EntriesAll(ns) < 0x8000_0000 && fuel >= EntriesAll(ns)
    requires ns != [] ==> DescribesChain(img, at, ns) && CountedChain(img, at, ns)
    ensures LoopWalk(img, at, |ns|, fuel) == Ok(if ns == [] then [] else OffsetsAll(img, at, ns))
    decreases ns
  {
    if ns != [] {
      if ns[0].File? {
        NameReadable(img, at, ns[0].name);
        assert [at] + [] == [at];
      } else {
        DirWalkIs(img, at, ns[0], fuel);
      }
      assert EntryWalk(img, at, fuel) == Ok(Offsets(img, at, ns[0]));
      LoopWalkIs(img, NextOf(img, at), ns[1..], fuel);
      assert |ns[1..]| == |ns| - 1;
    }
  }

  lemma {:induction false} EntriesCount(ns: seq<Node>)
    ensures |ns| <= EntriesAll(ns)
  {
    if ns != [] { EntriesCount(ns[1..]); }
  }

  /** Where counts are true, chkid and the kernel look at the same entries in the same order. */
  lemma SameWalk(img: seq<byte>, root: Node, fuel: nat)
    requires CheckImg(img) && root.Dir? && Describes(img, HEADER_SIZE, root) && Counted(img, HEADER_SIZE, root)
    requires Entries(root) < 0x8000_0000 && fuel >= Entries(root)
    ensures DirWalk(img, HEADER_SIZE, fuel).Ok?
    ensures DirWalk(img, HEADER_SIZE, fuel) == DirVisits(img, HEADER_SIZE, fuel)
  {
    KernelWalkIs(img, HEADER_SIZE, root, fuel);
    DirWalkIs(img, HEADER_SIZE, root, fuel);
    assert EntryVisits(img, HEADER_SIZE, fuel) == DirVisits(img, HEADER_SIZE, fuel);
  }

  /** Both programs on one such image: the offsets chkid reports are those the kernel visited. */
  method CheckAndMount(img: seq<byte>, ghost root: Node, fuel: nat)
    returns (walk: Outcome<seq<nat>>, r: Outcome<Inode>, ghost seen: seq<nat>)
    requires CheckImg(img) && root.Dir? && Describes(img, HEADER_SIZE, root) && Counted(img, HEADER_SIZE, root)
    requires Entries(root) < 0x8000_0000 && fuel >= Entries(root)
    ensures r.Ok? && walk == Ok(seen)
  {
    SameWalk(img, root, fuel);
    walk := CheckDir(img, HEADER_SIZE, fuel);
    r, seen := InitInitrd(img, fuel);
  }
}
