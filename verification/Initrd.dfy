/** The initrd from end to end: a directory tree on disk, mkinitrd's calls and image, the kernel's
    view after boot. */
module Initrd {
  import opened Common
  import opened InitrdFormat
  import opened InitrdBuilder
  import opened InitrdWriter
  import opened InitrdParser
  import opened InitrdCheck

  /** scan_dir (share/src/mkinitrd/main.c:28-73): issue the calls for directory `n`. */
  method ScanDir(b: Builder, n: Node)
    requires b.Valid() && n.Dir?
    modifies b
    ensures b.Valid()
    ensures if old(b.open) == [] then b.open == [] && b.done == Some(n)
            else Joined(old(b.open), b.open, n) && b.done == None
    decreases n
  {
    b.StartDir(n.name, None);
    ghost var outer, level := old(b.open), |b.open|;
    var i := 0;
    while i < |n.entries|
      invariant 0 <= i <= |n.entries|
      invariant b.Valid() && b.done == None
      invariant |b.open| == level && b.open[..level - 1] == outer
      invariant b.open[level - 1].name == n.name && b.open[level - 1].kids == n.entries[..i]
    {
      var e := n.entries[i];
      if e.File? {
        b.AddFile(e.name, e.content, 0);
      } else {
        ScanDir(b, e);
      }
      assert n.entries[..i + 1] == n.entries[..i] + [e];
      i := i + 1;
    }
    assert n.entries[..i] == n.entries;
    b.EndDir();
  }

  /** The innermost open directory got the entry `n`; nothing else changed. */
  ghost predicate Joined(before: seq<Open>, after: seq<Open>, n: Node) {
    && before != [] && |after| == |before|
    && after[..|after| - 1] == before[..|before| - 1]
    && after[|after| - 1] == before[|before| - 1].(kids := before[|before| - 1].kids + [n])
  }

  /** mkinitrd's main: scan the tree, write the image. */
  method MkInitrd(tree: Node) returns (img: seq<byte>)
    requires tree.Dir?
    ensures img == Image(tree)
  {
    var b := new Builder();
    ScanDir(b, tree);
    var out := new OutFile();
    IdWrite(b, out);
    img := out.bytes;
  }

  lemma {:induction false} EntriesFit(n: Node)
    ensures Entries(n) <= Extent(n)
    decreases n, 0
  {
    if n.Dir? { EntriesAllFit(n.entries); }
  }

  lemma {:induction false} EntriesAllFit(ns: seq<Node>)
    ensures EntriesAll(ns) <= ExtentAll(ns)
    decreases ns
  {
    if ns != [] { EntriesFit(ns[0]); EntriesAllFit(ns[1..]); }
  }

  /** Round trip: whatever fuel beyond the number of entries, parsing the image of a tree gives the
      tree back, and chkid sees the same entries as the kernel. */
  lemma RoundTrip(tree: Node, fuel: nat)
    requires tree.Dir? && NulFree(tree) && HEADER_SIZE + Extent(tree) < 0x8000_0000 && fuel >= Entries(tree)
    ensures CheckImg(Image(tree))
    ensures ParsesTo(Image(tree), fuel, tree)
    ensures DirWalk(Image(tree), HEADER_SIZE, fuel).Ok?
    ensures DirWalk(Image(tree), HEADER_SIZE, fuel) == DirVisits(Image(tree), HEADER_SIZE, fuel)
  {
    var img := Image(tree);
    ImageDescribes(tree);
    ParseComplete(img, HEADER_SIZE, tree, fuel);
    assert EntryAt(img, HEADER_SIZE, fuel) == DirAt(img, HEADER_SIZE, fuel);
    EntriesFit(tree);
    SameWalk(img, tree, fuel);
  }

  /** Build, write, check, boot: the kernel mounts the tree that mkinitrd scanned, visiting the entries chkid saw. */
  method BuildAndMount(tree: Node) returns (img: seq<byte>, walk: Outcome<seq<nat>>, ino: Inode, ghost seen: seq<nat>)
    requires tree.Dir? && NulFree(tree) && HEADER_SIZE + Extent(tree) < 0x8000_0000
    ensures InImage(img, ino) && TreeOf(img, ino) == tree && Sized(ino) && walk == Ok(seen)
  {
    img := MkInitrd(tree);
    EntriesFit(tree);
    RoundTrip(tree, |img|);
    ImageDescribes(tree);
    SizedIff(img, HEADER_SIZE, tree, |img|);
    walk := CheckDir(img, HEADER_SIZE, |img|);
    var r;
    r, seen := InitInitrd(img, |img|);
    ino := r.value;
  }
}
