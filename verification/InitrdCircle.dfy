/** Images whose links run in a circle. The kernel's parser and chkid both follow them for ever; here is exactly
    when, as a condition on the links that is decided by a walk which remembers the entries it is inside of. */
module InitrdCircle {
  import opened Common
  import opened InitrdFormat
  import opened InitrdParser
  import opened InitrdCheck

  /** How such a walk ends: at the end of all links, at an entry of unknown type, outside the image, or back at an
      entry that is on the way from the start to here. */
  datatype Way = Through | Unknown | Outside | Circle

  /** A parse or a check that ends like the walk: done, in a panic, in a read outside the image, or never. */
  predicate Like<T>(r: Outcome<T>, way: Way) {
    match way
    case Through => r.Ok?
    case Unknown => r.Panic?
    case Outside => r.Wild?
    case Circle => r.OutOfFuel?
  }

  /** The offsets in the image that are not on the way. */
  function Unseen(img: seq<byte>, way: set<nat>): set<nat> {
    set k: nat | k < |img| && k !in way
  }

  lemma UnseenLess(img: seq<byte>, way: set<nat>, at: nat)
    requires at < |img| && at !in way
    ensures Unseen(img, way + {at}) < Unseen(img, way) && |Unseen(img, way + {at})| == |Unseen(img, way)| - 1
  {
    assert at in Unseen(img, way);
    assert Unseen(img, way + {at}) == Unseen(img, way) - {at};
  }

  lemma {:induction false} UnseenSize(img: seq<byte>)
    ensures |Unseen(img, {})| == |img|
    decreases |img|
  {
    var all := Unseen(img, {});
    if img != [] {
      var last := |img| - 1;
      UnseenSize(img[..last]);
      assert all == Unseen(img[..last], {}) + {last};
    } else {
      assert all == {};
    }
  }

  // ---------- the kernel's parser ----------

  /** Follow the links from the entry at `at` as the parser does, first into a directory and then to the next
      entry; `way` holds the entries on the way here. */
  function Chase(img: seq<byte>, at: nat, way: set<nat>): Way
    decreases Unseen(img, way), 1
  {
    if at == 0 then Through
    else if at in way then Circle
    else if at + ENTRY_SIZE > |img| then Outside
    else
      UnseenLess(img, way, at);
      match ChaseEntry(img, at, way)
      case Through => Chase(img, NextOf(img, at), way + {at})
      case w => w
  }

  function ChaseEntry(img: seq<byte>, at: nat, way: set<nat>): Way
    requires at + ENTRY_SIZE <= |img| && at !in way
    decreases Unseen(img, way), 0
  {
    UnseenLess(img, way, at);
    if KindOf(img, at) != TYPE_FILE && KindOf(img, at) != TYPE_DIR then Unknown
    else if !InodeName(img, NameOf(img, at)).Ok? then Outside
    else if KindOf(img, at) == TYPE_DIR then Chase(img, FirstOf(img, at), way + {at})
    else Through
  }

  /** A walk that meets no circle is as deep as there are offsets, and the parse ends like it. */
  lemma {:induction false} ChaseEnds(img: seq<byte>, at: nat, way: set<nat>, fuel: nat)
    requires !Chase(img, at, way).Circle? && fuel > |Unseen(img, way)|
    ensures Like(ChainAt(img, at, fuel), Chase(img, at, way))
    decreases fuel, 1
  {
    if at != 0 && at + ENTRY_SIZE <= |img| {
      UnseenLess(img, way, at);
      EntryEnds(img, at, way, fuel - 1);
      if ChaseEntry(img, at, way).Through? { ChaseEnds(img, NextOf(img, at), way + {at}, fuel - 1); }
    }
  }

  lemma {:induction false} EntryEnds(img: seq<byte>, at: nat, way: set<nat>, fuel: nat)
    requires at + ENTRY_SIZE <= |img| && at !in way && !ChaseEntry(img, at, way).Circle? && fuel >= |Unseen(img, way)|
    ensures Like(EntryAt(img, at, fuel), ChaseEntry(img, at, way))
    decreases fuel, 2
  {
    if KindOf(img, at) == TYPE_DIR && InodeName(img, NameOf(img, at)).Ok? {
      UnseenLess(img, way, at);
      ChaseEnds(img, FirstOf(img, at), way + {at}, fuel);
    }
  }

  /** An entry that the walk comes through parses without failure, with any fuel. */
  lemma EntryParses(img: seq<byte>, at: nat, way: set<nat>, fuel: nat)
    requires at + ENTRY_SIZE <= |img| && at !in way && ChaseEntry(img, at, way).Through?
    ensures EntryAt(img, at, fuel).Ok? || EntryAt(img, at, fuel).OutOfFuel?
  {
    var more := fuel + |Unseen(img, way)|;
    EntryEnds(img, at, way, more);
    if !EntryAt(img, at, fuel).OutOfFuel? { EntryFuel(img, at, fuel, more); }
  }

  /** No entry on the way parses within so much fuel. */
  ghost predicate Stuck(img: seq<byte>, way: set<nat>, fuel: nat) {
    forall p | p in way :: ChainAt(img, p, fuel).OutOfFuel?
  }

  lemma StuckBefore(img: seq<byte>, way: set<nat>, fuel: nat)
    requires fuel > 0 && Stuck(img, way, fuel)
    ensures Stuck(img, way, fuel - 1)
  {
    forall p | p in way ensures ChainAt(img, p, fuel - 1).OutOfFuel? {
      if !ChainAt(img, p, fuel - 1).OutOfFuel? { ChainFuel(img, p, fuel - 1, fuel); }
    }
  }

  /** A walk that meets a circle: if no entry on the way parses, neither does this one. */
  lemma {:induction false} CircleRuns(img: seq<byte>, at: nat, way: set<nat>, fuel: nat)
    requires Chase(img, at, way).Circle? && Stuck(img, way, fuel)
    ensures ChainAt(img, at, fuel).OutOfFuel?
    decreases fuel, 1
  {
    if fuel > 0 && at !in way {
      StuckBefore(img, way, fuel);
      CircleRuns(img, at, way, fuel - 1);
      assert Stuck(img, way + {at}, fuel - 1);
      CircleBelow(img, at, way, fuel - 1);
    }
  }

  lemma {:induction false} CircleBelow(img: seq<byte>, at: nat, way: set<nat>, fuel: nat)
    requires at !in way && Chase(img, at, way).Circle? && Stuck(img, way + {at}, fuel)
    ensures ChainAt(img, at, fuel + 1).OutOfFuel?
    decreases fuel, 2
  {
    if ChaseEntry(img, at, way).Circle? {
      CircleRuns(img, FirstOf(img, at), way + {at}, fuel);
      assert DirAt(img, at, fuel).OutOfFuel?;
    } else {
      EntryParses(img, at, way, fuel);
      CircleRuns(img, NextOf(img, at), way + {at}, fuel);
    }
  }

  /** Where the links of the directory at `at` lead, as long as nothing stops the parser. */
  function Whither(img: seq<byte>, at: nat): Way {
    if at + ENTRY_SIZE > |img| then Outside
    else if KindOf(img, at) != TYPE_DIR then Unknown
    else if !InodeName(img, NameOf(img, at)).Ok? then Outside
    else Chase(img, FirstOf(img, at), {})
  }

  predicate Circular(img: seq<byte>, at: nat) { Whither(img, at).Circle? }

  lemma CircularRuns(img: seq<byte>, at: nat, fuel: nat)
    requires Circular(img, at)
    ensures DirAt(img, at, fuel).OutOfFuel?
  {
    CircleRuns(img, FirstOf(img, at), {}, fuel);
  }

  /** The parser ends as the walk does: with every bound above the size of the image it comes through, panics at an
      entry of unknown type, reads outside the image or runs on, exactly as the links lead there. */
  lemma EndsLike(img: seq<byte>, at: nat, fuel: nat)
    requires fuel > |img|
    ensures Like(DirAt(img, at, fuel), Whither(img, at))
  {
    UnseenSize(img);
    if Circular(img, at) {
      CircularRuns(img, at, fuel);
    } else if at + ENTRY_SIZE <= |img| && KindOf(img, at) == TYPE_DIR && InodeName(img, NameOf(img, at)).Ok? {
      ChaseEnds(img, FirstOf(img, at), {}, fuel);
    }
  }

  /** The parser never returns exactly if it is led into a circle, and one entry more than there are bytes decides. */
  lemma NeverEndsIff(img: seq<byte>, at: nat)
    ensures (forall fuel: nat :: DirAt(img, at, fuel).OutOfFuel?) <==> Circular(img, at)
    ensures DirAt(img, at, |img| + 1).OutOfFuel? <==> Circular(img, at)
  {
    if Circular(img, at) {
      forall fuel: nat ensures DirAt(img, at, fuel).OutOfFuel? { CircularRuns(img, at, fuel); }
    }
    EndsLike(img, at, |img| + 1);
    assert DirAt(img, at, |img| + 1).OutOfFuel? <==> Circular(img, at);
  }

  /** init_initrd on any image: it never returns exactly if the links run in a circle, and otherwise no larger bound
      changes what it returns. */
  method MountAny(img: seq<byte>) returns (r: Outcome<Inode>)
    ensures !CheckImg(img) ==> r.Panic?
    ensures r.OutOfFuel? <==> CheckImg(img) && Circular(img, HEADER_SIZE)
    ensures CheckImg(img) ==> Like(r, Whither(img, HEADER_SIZE))
    ensures CheckImg(img) ==> forall fuel | fuel > |img| :: DirAt(img, HEADER_SIZE, fuel) == r
  {
    ghost var seen;
    r, seen := InitInitrd(img, |img| + 1);
    EndsLike(img, HEADER_SIZE, |img| + 1);
    if CheckImg(img) {
      forall fuel | fuel > |img| ensures DirAt(img, HEADER_SIZE, fuel) == r { DirFuel(img, HEADER_SIZE, |img| + 1, fuel); }
    }
  }

  lemma DirFuel(img: seq<byte>, at: nat, fuel: nat, more: nat)
    requires |img| < fuel <= more
    ensures DirAt(img, at, more) == DirAt(img, at, fuel)
  {
    if Circular(img, at) {
      CircularRuns(img, at, fuel);
      CircularRuns(img, at, more);
    } else {
      EndsLike(img, at, fuel);
      if at + ENTRY_SIZE <= |img| && KindOf(img, at) == TYPE_DIR && InodeName(img, NameOf(img, at)).Ok? {
        ChainFuel(img, FirstOf(img, at), fuel, more);
      }
    }
  }

  // ---------- chkid ----------

  /** check_dir and its loop, which goes into a directory as often as it is met; `way` holds the directories that
      are being checked. */
  function Nest(img: seq<byte>, at: nat, way: set<nat>): Way
    decreases Unseen(img, way), 0
  {
    if at in way then Circle
    else if at + ENTRY_SIZE > |img| || !CString(img, NameOf(img, at)).Ok? then Outside
    else
      UnseenLess(img, way, at);
      NestLoop(img, ContentOf(img, at), Rounds(CountOf(img, at)), way + {at})
  }

  function NestLoop(img: seq<byte>, at: nat, rounds: nat, way: set<nat>): Way
    decreases Unseen(img, way), rounds + 1
  {
    if rounds == 0 then Through
    else if at + ENTRY_SIZE > |img| then Outside
    else match NestEntry(img, at, way)
      case Through => NestLoop(img, NextOf(img, at), rounds - 1, way)
      case w => w
  }

  function NestEntry(img: seq<byte>, at: nat, way: set<nat>): Way
    requires at + ENTRY_SIZE <= |img|
    decreases Unseen(img, way), 1
  {
    if KindOf(img, at) == TYPE_FILE then if CString(img, NameOf(img, at)).Ok? then Through else Outside
    else if KindOf(img, at) == TYPE_DIR then Nest(img, at, way)
    else Unknown
  }

  lemma {:induction false} NestEnds(img: seq<byte>, at: nat, way: set<nat>, fuel: nat)
    requires !Nest(img, at, way).Circle? && fuel > |Unseen(img, way)|
    ensures Like(DirWalk(img, at, fuel), Nest(img, at, way))
    decreases fuel, 0
  {
    if at + ENTRY_SIZE <= |img| && CString(img, NameOf(img, at)).Ok? {
      UnseenLess(img, way, at);
      NestLoopEnds(img, ContentOf(img, at), Rounds(CountOf(img, at)), way + {at}, fuel - 1);
    }
  }

  lemma {:induction false} NestLoopEnds(img: seq<byte>, at: nat, rounds: nat, way: set<nat>, fuel: nat)
    requires !NestLoop(img, at, rounds, way).Circle? && fuel > |Unseen(img, way)|
    ensures Like(LoopWalk(img, at, rounds, fuel), NestLoop(img, at, rounds, way))
    decreases fuel, rounds + 1
  {
    if rounds > 0 && at + ENTRY_SIZE <= |img| {
      if KindOf(img, at) == TYPE_DIR { NestEnds(img, at, way, fuel); }
      if NestEntry(img, at, way).Through? { NestLoopEnds(img, NextOf(img, at), rounds - 1, way, fuel); }
    }
  }

  /** More fuel changes no walk that ends. */
  lemma {:induction false} DirWalkFuel(img: seq<byte>, at: nat, fuel: nat, more: nat)
    requires fuel <= more && !DirWalk(img, at, fuel).OutOfFuel?
    ensures DirWalk(img, at, more) == DirWalk(img, at, fuel)
    decreases fuel, 0
  {
    if at + ENTRY_SIZE <= |img| && CString(img, NameOf(img, at)).Ok? {
      LoopWalkFuel(img, ContentOf(img, at), Rounds(CountOf(img, at)), fuel - 1, more - 1);
    }
  }

  lemma {:induction false} LoopWalkFuel(img: seq<byte>, at: nat, rounds: nat, fuel: nat, more: nat)
    requires fuel <= more && !LoopWalk(img, at, rounds, fuel).OutOfFuel?
    ensures LoopWalk(img, at, rounds, more) == LoopWalk(img, at, rounds, fuel)
    decreases fuel, rounds + 1
  {
    if rounds > 0 && at + ENTRY_SIZE <= |img| {
      if KindOf(img, at) == TYPE_DIR { DirWalkFuel(img, at, fuel, more); }
      if EntryWalk(img, at, fuel).Ok? { LoopWalkFuel(img, NextOf(img, at), rounds - 1, fuel, more); }
    }
  }

  lemma EntryThrough(img: seq<byte>, at: nat, way: set<nat>, fuel: nat)
    requires at + ENTRY_SIZE <= |img| && NestEntry(img, at, way).Through?
    ensures EntryWalk(img, at, fuel).Ok? || EntryWalk(img, at, fuel).OutOfFuel?
  {
    if KindOf(img, at) == TYPE_DIR {
      var more := fuel + |Unseen(img, way)| + 1;
      NestEnds(img, at, way, more);
      if !DirWalk(img, at, fuel).OutOfFuel? { DirWalkFuel(img, at, fuel, more); }
    }
  }

  lemma {:induction false} NestRuns(img: seq<byte>, at: nat, way: set<nat>, fuel: nat)
    requires Nest(img, at, way).Circle? && forall p | p in way :: DirWalk(img, p, fuel).OutOfFuel?
    ensures DirWalk(img, at, fuel).OutOfFuel?
    decreases fuel, 0
  {
    if fuel > 0 && at !in way {
      forall p | p in way ensures DirWalk(img, p, fuel - 1).OutOfFuel? {
        if !DirWalk(img, p, fuel - 1).OutOfFuel? { DirWalkFuel(img, p, fuel - 1, fuel); }
      }
      NestRuns(img, at, way, fuel - 1);
      NestLoopRuns(img, ContentOf(img, at), Rounds(CountOf(img, at)), way + {at}, fuel - 1);
    }
  }

  lemma {:induction false} NestLoopRuns(img: seq<byte>, at: nat, rounds: nat, way: set<nat>, fuel: nat)
    requires NestLoop(img, at, rounds, way).Circle? && forall p | p in way :: DirWalk(img, p, fuel).OutOfFuel?
    ensures LoopWalk(img, at, rounds, fuel).OutOfFuel?
    decreases fuel, rounds + 1
  {
    if NestEntry(img, at, way).Circle? {
      NestRuns(img, at, way, fuel);
    } else {
      EntryThrough(img, at, way, fuel);
      NestLoopRuns(img, NextOf(img, at), rounds - 1, way, fuel);
    }
  }

  /** chkid never returns exactly if a directory is met inside itself before anything stops the walk. */
  lemma CheckNeverEndsIff(img: seq<byte>, at: nat)
    ensures (forall fuel: nat :: DirWalk(img, at, fuel).OutOfFuel?) <==> Nest(img, at, {}).Circle?
    ensures Like(DirWalk(img, at, |img| + 1), Nest(img, at, {}))
  {
    UnseenSize(img);
    if Nest(img, at, {}).Circle? {
      forall fuel: nat ensures DirWalk(img, at, fuel).OutOfFuel? { NestRuns(img, at, {}, fuel); }
    } else {
      NestEnds(img, at, {}, |img| + 1);
      assert !DirWalk(img, at, |img| + 1).OutOfFuel?;
    }
  }

  // ---------- an image ----------

  /** 24 bytes: a root directory without a name whose one entry is itself. */
  ghost predicate IsRing(img: seq<byte>) {
    img == HEADER + EntryBytes(TYPE_DIR, 0, 1, HEADER_SIZE, 0)
  }

  lemma RingFields(img: seq<byte>)
    requires IsRing(img)
    ensures CheckImg(img) && |img| == HEADER_SIZE + ENTRY_SIZE
    ensures KindOf(img, HEADER_SIZE) == TYPE_DIR && NameOf(img, HEADER_SIZE) == 0
    ensures CountOf(img, HEADER_SIZE) == 1 && ContentOf(img, HEADER_SIZE) == HEADER_SIZE
  {
    assert img[..HEADER_SIZE] == HEADER;
    assert img[HEADER_SIZE..HEADER_SIZE + ENTRY_SIZE] == EntryBytes(TYPE_DIR, 0, 1, HEADER_SIZE, 0);
    FieldsOfEntry(img, HEADER_SIZE, TYPE_DIR, 0, 1, HEADER_SIZE, 0);
  }

  /** A directory whose first entry is itself is parsed and checked for ever. */
  lemma SelfNeverEnds(img: seq<byte>, at: nat, fuel: nat)
    requires at != 0 && at + ENTRY_SIZE <= |img| && KindOf(img, at) == TYPE_DIR
    requires 0 < CountOf(img, at) < 0x8000_0000 && ContentOf(img, at) == at
    requires CString(img, NameOf(img, at)).Ok?
    ensures DirAt(img, at, fuel).OutOfFuel? && DirWalk(img, at, fuel).OutOfFuel?
  {
    var way: set<nat> := {} + {at};
    assert Chase(img, at, way).Circle?;
    assert ChaseEntry(img, at, {}).Circle?;
    NeverEndsIff(img, at);
    assert NestEntry(img, at, way).Circle?;
    CheckNeverEndsIff(img, at);
  }

  /** The image passes the header check, and neither the kernel nor chkid ever gets through it. */
  lemma RingNeverEnds(img: seq<byte>, fuel: nat)
    requires IsRing(img)
    ensures CheckImg(img) && DirAt(img, HEADER_SIZE, fuel).OutOfFuel? && DirWalk(img, HEADER_SIZE, fuel).OutOfFuel?
  {
    RingFields(img);
    NameIsCString(img, 0, HEADER[..3]);
    SelfNeverEnds(img, HEADER_SIZE, fuel);
  }
}
