/** kernel/cdi/ata/ata.c and device.c: requests of any size split into transfers the registers can
    hold, on a whole drive or on a partition of it. */
module Ata {
  import opened Common
  import opened Ranges
  import opened AtaRegisters
  import opened AtaRequest

  const MAX_PIO := 0x100
  const PER_SECTOR := 102   // status reads that a willing drive takes at most for a sector, waiting and commands included

  // ---------- sectors as bytes ----------

  lemma {:induction false} FlatConcat(a: seq<Sector>, b: seq<Sector>)
    ensures Flat(a + b) == Flat(a) + Flat(b)
    decreases |b|
  {
    if b == [] {
      assert a + b == a;
    } else {
      var last := |b| - 1;
      assert (a + b)[..|a| + last] == a + b[..last];
      FlatConcat(a, b[..last]);
    }
  }

  /** Sectors cut out of a drive are the bytes cut out of its bytes. */
  lemma {:induction false} FlatSlice(s: seq<Sector>, lo: nat, hi: nat)
    requires lo <= hi <= |s|
    ensures Flat(s)[SECTOR * lo..SECTOR * hi] == Flat(s[lo..hi])
  {
    assert s[..hi] == s[..lo] + s[lo..hi] && s == s[..hi] + s[hi..];
    FlatConcat(s[..lo], s[lo..hi]);
    FlatConcat(s[..hi], s[hi..]);
  }

  lemma {:induction false} FlatPieces(b: seq<byte>, base: nat, count: nat)
    requires base + SECTOR * count <= |b|
    ensures Flat(Pieces(b, base, count)) == b[base..base + SECTOR * count]
    decreases count
  {
    if count > 0 {
      FlatPieces(b, base, count - 1);
      var p := Pieces(b, base, count);
      assert p[..count - 1] == Pieces(b, base, count - 1);
    }
  }

  /** Byte `k` of the joined sectors. */
  lemma {:induction false} FlatAt(s: seq<Sector>, i: nat, j: nat)
    requires i < |s| && j < SECTOR
    ensures SECTOR * i + j < |Flat(s)| && Flat(s)[SECTOR * i + j] == s[i][j]
    decreases |s|
  {
    if i < |s| - 1 { FlatAt(s[..|s| - 1], i, j); }
  }

  /** Writing sectors is writing their bytes. */
  lemma FlatOverlay(s: seq<Sector>, at: nat, put: seq<Sector>)
    ensures Flat(Overlay(s, at, put)) == Overlay(Flat(s), SECTOR * at, Flat(put))
  {
    var t := Overlay(s, at, put);
    forall k | 0 <= k < SECTOR * |s| ensures Flat(t)[k] == Overlay(Flat(s), SECTOR * at, Flat(put))[k] {
      var i, j := k / SECTOR, k % SECTOR;
      FlatAt(t, i, j);
      if at <= i < at + |put| { FlatAt(put, i - at, j); } else { FlatAt(s, i, j); }
    }
  }

  /** Reading sectors is reading their bytes. */
  lemma {:induction false} FlatAgrees(got: seq<Sector>, at: nat, s: seq<Sector>)
    requires Agrees(got, at, s)
    ensures Agrees(Flat(got), SECTOR * at, Flat(s))
  {
    forall k | 0 <= k < SECTOR * |got| && SECTOR * at + k < SECTOR * |s| ensures Flat(got)[k] == Flat(s)[SECTOR * at + k] {
      var i, j := k / SECTOR, k % SECTOR;
      FlatAt(got, i, j);
      FlatAt(s, at + i, j);
      assert got[i] == s[at + i];
    }
  }

  // ---------- whole requests ----------

  /** `asked` are the first chunks of the request, up to the sector `lba`. */
  ghost predicate AskedUpTo(start: nat, count: nat, asked: seq<Chunk>, lba: nat) {
    start <= lba <= start + count && Chunks(start, count, MAX_PIO) == asked + Chunks(lba, start + count - lba, MAX_PIO)
  }

  lemma AskedNext(start: nat, count: nat, asked: seq<Chunk>, lba: nat, n: nat)
    requires AskedUpTo(start, count, asked, lba) && lba < start + count
    requires n == if start + count - lba > MAX_PIO then MAX_PIO else start + count - lba
    ensures AskedUpTo(start, count, asked + [Chunk(lba, n)], lba + n)
  {
    var rest := Chunks(lba + n, start + count - lba - n, MAX_PIO);
    assert asked + ([Chunk(lba, n)] + rest) == asked + [Chunk(lba, n)] + rest;
  }

  // ---------- what a request puts into the registers ----------

  /** The commands for these chunks, in order. */
  function Issued(chunks: seq<Chunk>, id: nat, write: bool): (r: seq<Command>)
    ensures |r| == |chunks|
  {
    seq(|chunks|, k requires 0 <= k < |chunks| => Command(Encode(chunks[k].lba, chunks[k].count, id), write))
  }

  /** What the drive takes these commands to be. */
  function Decoded(commands: seq<Command>): (r: seq<Chunk>)
    ensures |r| == |commands|
  {
    seq(|commands|, k requires 0 <= k < |commands| => Chunk(LbaOf(commands[k].regs), CountOf(commands[k].regs)))
  }

  /** `asked` has gone out as commands behind those before, all of it or all but the last chunk; in that case
      nothing of that chunk has been moved. */
  ghost predicate Sent(before: seq<Command>, after: seq<Command>, asked: seq<Chunk>, id: nat, write: bool, reached: nat) {
    || after == before + Issued(asked, id, write)
    || (asked != [] && var last := |asked| - 1;
        after == before + Issued(asked[..last], id, write) && reached == asked[last].lba)
  }

  lemma SentNext(before: seq<Command>, mid: seq<Command>, after: seq<Command>, asked: seq<Chunk>, c: Chunk, id: nat,
                 write: bool, moved: nat)
    requires mid == before + Issued(asked, id, write)
    requires Commanded(mid, after, Command(Encode(c.lba, c.count, id), write), moved)
    ensures Sent(before, after, asked + [c], id, write, c.lba + moved)
    ensures moved > 0 ==> after == before + Issued(asked + [c], id, write)
  {
    var all := asked + [c];
    assert all[..|asked|] == asked;
    assert Issued(all, id, write) == Issued(asked, id, write) + [Command(Encode(c.lba, c.count, id), write)];
  }

  /** What a drive makes of the commands of a whole request of any start and size: the request's own chunks exactly if
      the last one starts below 2^28. */
  ghost predicate MeantIff(before: seq<Command>, after: seq<Command>, start: nat, count: nat) {
    && |before| <= |after|
    && (count > 0 ==> (Decoded(after[|before|..]) == Chunks(start, count, MAX_PIO) <==> LastChunk(start, count, MAX_PIO) < LBA28))
  }

  lemma SentAsMeant(before: seq<Command>, after: seq<Command>, start: nat, count: nat, id: nat, write: bool)
    requires id < 2 && after == before + Issued(Chunks(start, count, MAX_PIO), id, write)
    ensures MeantIff(before, after, start, count)
  {
    var chunks := Chunks(start, count, MAX_PIO);
    assert after[|before|..] == Issued(chunks, id, write);
    assert Decoded(Issued(chunks, id, write)) == Seen(chunks, id);
    if count > 0 { SeenAsMeant(start, count, MAX_PIO, id); }
  }

  /** A request, and the buffer, the sectors, the commands and the moved sectors that it started from. */
  datatype Job = Job(start: nat, count: nat, base: nat, bytes: seq<byte>, sectors: seq<Sector>,
                     commands: seq<Command>, moved: seq<Sector>)

  /** The first `done` sectors of the request have been asked for, in the chunks `asked`: whole ones, unless it was all. */
  ghost predicate OutUpTo(job: Job, commands: seq<Command>, id: nat, write: bool, asked: seq<Chunk>, done: nat) {
    && AskedUpTo(job.start, job.count, asked, job.start + done) && (done < job.count ==> done % MAX_PIO == 0)
    && commands == job.commands + Issued(asked, id, write)
  }

  /** A request that stopped after `done` sectors did so within the last chunk asked for. */
  ghost predicate StoppedIn(start: nat, asked: seq<Chunk>, done: nat) {
    asked != [] && var c := asked[|asked| - 1]; c.lba <= start + done <= c.lba + c.count
  }

  /** The commands of a request that has ended, after `done` sectors. */
  ghost predicate Finished(job: Job, commands: seq<Command>, id: nat, write: bool, ok: bool, asked: seq<Chunk>, done: nat) {
    && asked <= Chunks(job.start, job.count, MAX_PIO) && Sent(job.commands, commands, asked, id, write, job.start + done)
    && if ok then
         && done == job.count && asked == Chunks(job.start, job.count, MAX_PIO)
         && MeantIff(job.commands, commands, job.start, job.count)
       else
         StoppedIn(job.start, asked, done)
  }

  lemma NoneOut(job: Job, id: nat, write: bool)
    ensures OutUpTo(job, job.commands, id, write, [], 0)
  {
    assert Issued([], id, write) == [];
  }

  /** The chunk after these goes out, and `moved` of its sectors are moved. */
  lemma ChunkOut(job: Job, sent: seq<Command>, now: seq<Command>, id: nat, write: bool, asked: seq<Chunk>, done: nat, n: nat,
                 moved: nat)
    requires OutUpTo(job, sent, id, write, asked, done) && done < job.count && moved <= n
    requires n == if job.count - done > MAX_PIO then MAX_PIO else job.count - done
    requires Commanded(sent, now, Command(Encode(job.start + done, n, id), write), moved)
    ensures var all := asked + [Chunk(job.start + done, n)];
            && Finished(job, now, id, write, false, all, done + moved)
            && (moved == n ==> OutUpTo(job, now, id, write, all, done + n))
  {
    AskedNext(job.start, job.count, asked, job.start + done, n);
    SentNext(job.commands, sent, now, asked, Chunk(job.start + done, n), id, write, moved);
  }

  lemma AllOut(job: Job, commands: seq<Command>, id: nat, write: bool, asked: seq<Chunk>)
    requires id < 2 && OutUpTo(job, commands, id, write, asked, job.count)
    ensures Finished(job, commands, id, write, true, asked, job.count)
  {
    assert asked == Chunks(job.start, job.count, MAX_PIO);
    SentAsMeant(job.commands, commands, job.start, job.count, id, write);
  }

  /** With a willing drive and time enough, what has been moved has taken its share of it. */
  ghost predicate OnTime(d: Drive, t0: nat, count: nat, left: nat)
    reads d
  {
    Willing(d.answers) && t0 + PER_SECTOR * count <= d.horizon ==> d.time + PER_SECTOR * left <= t0 + PER_SECTOR * count
  }

  // ---------- reading ----------

  /** The sector of the drive that sector `k` of a request is read from or written to: its chunk's address goes out
      modulo 2^28. */
  function SectorOf(start: nat, k: nat): (r: nat) {
    (start + k / MAX_PIO * MAX_PIO) % LBA28 + k % MAX_PIO
  }

  /** Below 2^28 that is the sector meant, also in a chunk that reaches beyond. */
  lemma SectorMeant(start: nat, k: nat)
    requires start + k < LBA28
    ensures SectorOf(start, k) == start + k
  {
    DivBounds(k, MAX_PIO);
    LowAddress(start + k / MAX_PIO * MAX_PIO);
  }

  lemma LowAddress(lba: nat)
    ensures lba < LBA28 ==> lba % LBA28 == lba
  {
  }

  lemma InChunk(done: nat, j: nat)
    requires done % MAX_PIO == 0 && j < MAX_PIO
    ensures (done + j) / MAX_PIO * MAX_PIO == done && (done + j) % MAX_PIO == j
  {
    DivBounds(done, MAX_PIO);
    DivBounds(done + j, MAX_PIO);
    SameRemainder((done + j) / MAX_PIO, done / MAX_PIO, (done + j) % MAX_PIO, j, MAX_PIO);
  }

  lemma SectorInChunk(start: nat, done: nat, j: nat)
    requires done % MAX_PIO == 0 && j < MAX_PIO
    ensures SectorOf(start, done + j) == (start + done) % LBA28 + j
  {
    InChunk(done, j);
  }

  /** `got` are the first sectors of the request, as far as the drive has them. */
  ghost predicate Fetched(sectors: seq<Sector>, start: nat, count: nat, got: seq<Sector>) {
    && |got| <= count
    && forall k | 0 <= k < |got| :: FetchedAt(sectors, start, got, k)
  }

  ghost predicate FetchedAt(sectors: seq<Sector>, start: nat, got: seq<Sector>, k: nat)
    requires k < |got|
  {
    SectorOf(start, k) < |sectors| ==> got[k] == sectors[SectorOf(start, k)]
  }

  lemma FetchedNext(sectors: seq<Sector>, start: nat, count: nat, got: seq<Sector>, n: nat,
                    more: seq<Sector>)
    requires Fetched(sectors, start, count, got) && |more| <= n <= MAX_PIO && |got| + n <= count && |got| % MAX_PIO == 0
    requires Agrees(more, (start + |got|) % LBA28, sectors)
    ensures Fetched(sectors, start, count, got + more)
  {
    forall k | 0 <= k < |got| + |more| ensures FetchedAt(sectors, start, got + more, k) {
      if k < |got| { assert FetchedAt(sectors, start, got, k); } else { SectorInChunk(start, |got|, k - |got|); }
    }
  }

  /** The sectors of a drive that 28 bits of address reach. */
  function Front<A>(s: seq<A>, n: nat): (r: seq<A>) { if |s| <= n then s else s[..n] }

  /** What is read of the sectors below 2^28 is what stands there. */
  lemma FetchedLow(sectors: seq<Sector>, start: nat, count: nat, got: seq<Sector>)
    requires Fetched(sectors, start, count, got)
    ensures Agrees(got, start, Front(sectors, LBA28))
  {
    forall k | 0 <= k < |got| && start + k < |Front(sectors, LBA28)| ensures got[k] == Front(sectors, LBA28)[start + k] {
      assert FetchedAt(sectors, start, got, k);
      SectorMeant(start, k);
    }
  }

  lemma FlatLow(sectors: seq<Sector>)
    ensures Flat(Front(sectors, LBA28)) == Front(Flat(sectors), SECTOR * LBA28)
  {
    if |sectors| > LBA28 { FlatSlice(sectors, 0, LBA28); }
  }

  /** The sectors `got` have been read, into the buffer. */
  ghost predicate ReadUpTo(job: Job, sectors: seq<Sector>, moved: seq<Sector>, bytes: seq<byte>, got: seq<Sector>) {
    && bytes == Overlay(job.bytes, job.base, Flat(got)) && Extends(job.moved, moved, got)
    && Fetched(sectors, job.start, job.count, got)
  }

  lemma LandsNext(bytes: seq<byte>, bytes0: seq<byte>, bytes1: seq<byte>, base: nat, got: seq<Sector>, more: seq<Sector>)
    requires base + SECTOR * (|got| + |more|) <= |bytes| && bytes0 == Overlay(bytes, base, Flat(got))
    requires bytes1 == Overlay(bytes0, base + SECTOR * |got|, Flat(more))
    ensures bytes1 == Overlay(bytes, base, Flat(got + more))
  {
    OverlayJoin(bytes, base, Flat(got), Flat(more));
    FlatConcat(got, more);
  }

  /** One round of ata_drv_rw_sectors, reading: the next chunk goes behind what is already there. */
  method ReadChunk(d: Drive, lba: nat, n: nat, buf: array<byte>, at: nat, ghost job: Job, ghost asked: seq<Chunk>,
                   ghost got: seq<Sector>) returns (r: Result, ghost all: seq<Sector>)
    requires d.Valid() && d.id < 2 && |got| < job.count && lba == job.start + |got| && at == job.base + SECTOR * |got|
    requires n == if job.count - |got| > MAX_PIO then MAX_PIO else job.count - |got|
    requires job.base + SECTOR * job.count <= |job.bytes| == buf.Length
    requires ReadUpTo(job, d.sectors, d.moved, buf[..], got) && OutUpTo(job, d.commands, d.id, false, asked, |got|)
    modifies d`time, d`log, d`transfer, d`moved, d`regs, d`commands, buf
    ensures d.Valid() && ReadUpTo(job, d.sectors, d.moved, buf[..], all)
    ensures if r.Success? then |all| == |got| + n && OutUpTo(job, d.commands, d.id, false, asked + [Chunk(lba, n)], |all|)
            else Finished(job, d.commands, d.id, false, false, asked + [Chunk(lba, n)], |all|)
    ensures Ends(r, d, old(d.time), true, PER_SECTOR * n)
  {
    ghost var b, sent, moved, more := buf[..], d.commands, d.moved, [];
    r, more := RequestRead(d, true, lba, n, buf, at);
    LandsNext(job.bytes, b, buf[..], job.base, got, more);
    FetchedNext(d.sectors, job.start, job.count, got, n, more);
    ExtendsMore(job.moved, moved, d.moved, got, more);
    ChunkOut(job, sent, d.commands, d.id, false, asked, |got|, n, |more|);
    all := got + more;
  }

  lemma ExtendsMore(a: seq<Sector>, b: seq<Sector>, c: seq<Sector>, got: seq<Sector>, more: seq<Sector>)
    requires Extends(a, b, got) && Extends(b, c, more)
    ensures Extends(a, c, got + more)
  {
  }

  /** ata_drv_rw_sectors, reading by PIO: the commands written are the request's chunks in order, what the drive hands
      over is what lands in the buffer, and each sector comes from the place its command names. */
  method ReadSectors(d: Drive, start: nat, count: nat, buf: array<byte>, base: nat)
    returns (r: Result, ghost asked: seq<Chunk>, ghost got: seq<Sector>)
    requires d.Valid() && d.id < 2 && base + SECTOR * count <= buf.Length
    modifies d`time, d`log, d`transfer, d`moved, d`regs, d`commands, buf
    ensures d.Valid() && Fetched(d.sectors, start, count, got) && buf[..] == Overlay(old(buf[..]), base, Flat(got))
    ensures asked <= Chunks(start, count, MAX_PIO) && Extends(old(d.moved), d.moved, got)
    ensures Sent(old(d.commands), d.commands, asked, d.id, false, start + |got|)
    ensures if r.Success? then |got| == count && asked == Chunks(start, count, MAX_PIO) else StoppedIn(start, asked, |got|)
    ensures r.Success? ==> MeantIff(old(d.commands), d.commands, start, count)
    ensures Ends(r, d, old(d.time), true, PER_SECTOR * count)
  {
    var left: nat := count;
    got, asked := [], [];
    ghost var job, t0 := Job(start, count, base, buf[..], d.sectors, d.commands, d.moved), d.time;
    OverlayNone(buf[..], base);
    NoneOut(job, d.id, false);
    while left > 0
      invariant d.Valid() && OnTime(d, t0, count, left) && left <= count && |got| == count - left
      invariant ReadUpTo(job, d.sectors, d.moved, buf[..], got) && OutUpTo(job, d.commands, d.id, false, asked, |got|)
    {
      var n := if left > MAX_PIO then MAX_PIO else left;
      var lba, at := start + (count - left), base + SECTOR * (count - left);
      r, got := ReadChunk(d, lba, n, buf, at, job, asked, got);
      asked := asked + [Chunk(lba, n)];
      if !r.Success? { return; }
      left := left - n;
    }
    AllOut(job, d.commands, d.id, false, asked);
    r := Success;
  }

  // ---------- writing ----------

  /** What stands in sector `x` of a drive after the first `k` sectors of a request have been written: the last one that
      went there, or what was there. */
  function LaidAt(was: Sector, start: nat, put: seq<Sector>, k: nat, x: nat): Sector
    requires k <= |put|
  {
    if k == 0 then was else if SectorOf(start, k - 1) == x then put[k - 1] else LaidAt(was, start, put, k - 1, x)
  }

  /** The sectors `put` of the request have been written, and nothing else. */
  ghost predicate Stored(before: seq<Sector>, sectors: seq<Sector>, start: nat, count: nat, put: seq<Sector>) {
    && |put| <= count && |sectors| == |before|
    && forall x | 0 <= x < |before| :: StoredAt(before, sectors, start, put, x)
  }

  ghost predicate StoredAt(before: seq<Sector>, sectors: seq<Sector>, start: nat, put: seq<Sector>, x: nat)
    requires x < |before| == |sectors|
  {
    sectors[x] == LaidAt(before[x], start, put, |put|, x)
  }

  lemma {:induction false} LaidPrefix(was: Sector, start: nat, put: seq<Sector>, all: seq<Sector>, k: nat, x: nat)
    requires k <= |put| && put <= all
    ensures LaidAt(was, start, all, k, x) == LaidAt(was, start, put, k, x)
    decreases k
  {
    if k > 0 { LaidPrefix(was, start, put, all, k - 1, x); }
  }

  /** The sectors of one chunk lie next to each other. */
  lemma {:induction false} LaidChunk(was: Sector, start: nat, all: seq<Sector>, done: nat, j: nat, x: nat)
    requires done % MAX_PIO == 0 && j <= MAX_PIO && done + j <= |all|
    ensures var at := (start + done) % LBA28;
            LaidAt(was, start, all, done + j, x) ==
              if at <= x < at + j then all[done + (x - at)] else LaidAt(was, start, all, done, x)
    decreases j
  {
    if j > 0 {
      SectorInChunk(start, done, j - 1);
      LaidChunk(was, start, all, done, j - 1, x);
    }
  }

  /** Up to 2^28 the sectors are in their places and no other sector has changed. */
  lemma {:induction false} LaidLow(was: Sector, start: nat, put: seq<Sector>, k: nat, x: nat)
    requires k <= |put| && start + k <= LBA28
    ensures LaidAt(was, start, put, k, x) == if start <= x < start + k then put[x - start] else was
    decreases k
  {
    if k > 0 {
      SectorMeant(start, k - 1);
      LaidLow(was, start, put, k - 1, x);
    }
  }

  lemma StoredLow(before: seq<Sector>, sectors: seq<Sector>, start: nat, count: nat, put: seq<Sector>)
    requires Stored(before, sectors, start, count, put) && start + |put| <= LBA28
    ensures sectors == Overlay(before, start, put)
  {
    forall x | 0 <= x < |before| ensures sectors[x] == Overlay(before, start, put)[x] {
      assert StoredAt(before, sectors, start, put, x);
      LaidLow(before[x], start, put, |put|, x);
    }
  }

  /** One chunk more. */
  lemma StoredMore(was: seq<Sector>, before: seq<Sector>, after: seq<Sector>, start: nat, count: nat, put: seq<Sector>,
                   more: seq<Sector>)
    requires Stored(was, before, start, count, put) && |put| % MAX_PIO == 0 && |more| <= MAX_PIO && |put| + |more| <= count
    requires after == Overlay(before, (start + |put|) % LBA28, more)
    ensures Stored(was, after, start, count, put + more)
  {
    var all := put + more;
    forall x | 0 <= x < |was| ensures StoredAt(was, after, start, all, x) {
      assert StoredAt(was, before, start, put, x);
      LaidChunk(was[x], start, all, |put|, |more|, x);
      LaidPrefix(was[x], start, put, all, |put|, x);
    }
  }

  lemma StoredNext(was: seq<Sector>, before: seq<Sector>, after: seq<Sector>, start: nat, count: nat, b: seq<byte>,
                   base: nat, done: nat, more: nat)
    requires done % MAX_PIO == 0 && more <= MAX_PIO && done + more <= count && base + SECTOR * (done + more) <= |b|
    requires Stored(was, before, start, count, Pieces(b, base, done))
    requires after == Overlay(before, (start + done) % LBA28, Pieces(b, base + SECTOR * done, more))
    ensures Stored(was, after, start, count, Pieces(b, base, done + more))
  {
    PiecesJoin(b, base, done, more);
    StoredMore(was, before, after, start, count, Pieces(b, base, done), Pieces(b, base + SECTOR * done, more));
  }

  lemma MovedNext(a: seq<Sector>, b: seq<Sector>, c: seq<Sector>, bytes: seq<byte>, base: nat, done: nat, more: nat)
    requires base + SECTOR * (done + more) <= |bytes|
    requires Extends(a, b, Pieces(bytes, base, done)) && Extends(b, c, Pieces(bytes, base + SECTOR * done, more))
    ensures Extends(a, c, Pieces(bytes, base, done + more))
  {
    PiecesJoin(bytes, base, done, more);
    ExtendsMore(a, b, c, Pieces(bytes, base, done), Pieces(bytes, base + SECTOR * done, more));
  }

  /** The first `done` sectors of the buffer have been written. */
  ghost predicate WrittenUpTo(job: Job, sectors: seq<Sector>, moved: seq<Sector>, bytes: seq<byte>, done: nat)
    requires job.base + SECTOR * done <= |bytes|
  {
    && Stored(job.sectors, sectors, job.start, job.count, Pieces(bytes, job.base, done))
    && Extends(job.moved, moved, Pieces(bytes, job.base, done))
  }

  lemma WrittenOn(job: Job, before: seq<Sector>, after: seq<Sector>, moved0: seq<Sector>, moved: seq<Sector>, b: seq<byte>,
                  done: nat, more: nat)
    requires job.base + SECTOR * job.count <= |b| && done + more <= job.count && done % MAX_PIO == 0 && more <= MAX_PIO
    requires WrittenUpTo(job, before, moved0, b, done) && Extends(moved0, moved, Pieces(b, job.base + SECTOR * done, more))
    requires after == Overlay(before, (job.start + done) % LBA28, Pieces(b, job.base + SECTOR * done, more))
    ensures WrittenUpTo(job, after, moved, b, done + more)
  {
    StoredNext(job.sectors, before, after, job.start, job.count, b, job.base, done, more);
    MovedNext(job.moved, moved0, moved, b, job.base, done, more);
  }

  /** One round of ata_drv_rw_sectors, writing. */
  method WriteChunk(d: Drive, lba: nat, n: nat, buf: array<byte>, at: nat, ghost job: Job, ghost asked: seq<Chunk>,
                    ghost done: nat) returns (r: Result, ghost all: nat)
    requires d.Valid() && d.id < 2 && done < job.count && lba == job.start + done && at == job.base + SECTOR * done
    requires n == if job.count - done > MAX_PIO then MAX_PIO else job.count - done
    requires job.base + SECTOR * job.count <= buf.Length
    requires WrittenUpTo(job, d.sectors, d.moved, buf[..], done) && OutUpTo(job, d.commands, d.id, true, asked, done)
    modifies d`time, d`log, d`transfer, d`moved, d`regs, d`commands, d`sectors
    ensures d.Valid() && all <= job.count && WrittenUpTo(job, d.sectors, d.moved, buf[..], all)
    ensures if r.Success? then all == done + n && OutUpTo(job, d.commands, d.id, true, asked + [Chunk(lba, n)], all)
            else Finished(job, d.commands, d.id, true, false, asked + [Chunk(lba, n)], all)
    ensures Ends(r, d, old(d.time), true, PER_SECTOR * n)
  {
    ghost var b, before, sent, moved, more := buf[..], d.sectors, d.commands, d.moved, 0;
    r, more := RequestWrite(d, true, lba, n, buf, at);
    WrittenOn(job, before, d.sectors, moved, d.moved, b, done, more);
    ChunkOut(job, sent, d.commands, d.id, true, asked, done, n, more);
    all := done + more;
  }

  /** ata_drv_rw_sectors, writing by PIO: the commands written are the request's chunks in order, the drive has been
      handed the first `done` sectors of the buffer, all of them after a success, and each is where its command names. */
  method WriteSectors(d: Drive, start: nat, count: nat, buf: array<byte>, base: nat)
    returns (r: Result, ghost asked: seq<Chunk>, ghost done: nat)
    requires d.Valid() && d.id < 2 && base + SECTOR * count <= buf.Length
    modifies d`time, d`log, d`transfer, d`moved, d`regs, d`commands, d`sectors
    ensures d.Valid() && done <= count
    ensures Stored(old(d.sectors), d.sectors, start, count, Pieces(buf[..], base, done))
    ensures asked <= Chunks(start, count, MAX_PIO) && Extends(old(d.moved), d.moved, Pieces(buf[..], base, done))
    ensures Sent(old(d.commands), d.commands, asked, d.id, true, start + done)
    ensures if r.Success? then done == count && asked == Chunks(start, count, MAX_PIO) else StoppedIn(start, asked, done)
    ensures r.Success? ==> MeantIff(old(d.commands), d.commands, start, count)
    ensures Ends(r, d, old(d.time), true, PER_SECTOR * count)
  {
    var left: nat := count;
    asked, done := [], 0;
    ghost var job, t0 := Job(start, count, base, buf[..], d.sectors, d.commands, d.moved), d.time;
    NoneOut(job, d.id, true);
    while left > 0
      invariant d.Valid() && OnTime(d, t0, count, left) && left <= count && done == count - left
      invariant WrittenUpTo(job, d.sectors, d.moved, buf[..], done) && OutUpTo(job, d.commands, d.id, true, asked, done)
    {
      var n := if left > MAX_PIO then MAX_PIO else left;
      var lba, at := start + (count - left), base + SECTOR * (count - left);
      r, done := WriteChunk(d, lba, n, buf, at, job, asked, done);
      asked := asked + [Chunk(lba, n)];
      if !r.Success? { return; }
      left := left - n;
    }
    AllOut(job, d.commands, d.id, true, asked);
    r := Success;
  }

  lemma {:induction false} PiecesJoin(b: seq<byte>, base: nat, i: nat, j: nat)
    requires base + SECTOR * (i + j) <= |b|
    ensures Pieces(b, base, i) + Pieces(b, base + SECTOR * i, j) == Pieces(b, base, i + j)
    decreases j
  {
    if j > 0 { PiecesJoin(b, base, i, j - 1); }
  }

  // ---------- drives and partitions ----------

  /** What stands behind a storage device: a drive as a whole, or `blocks` sectors of it from `start`
      on. A drive may come without a handler for reading or writing. */
  datatype Volume = Volume(start: nat, blocks: nat)

  /** The bytes of a volume. */
  function Bytes(sectors: seq<Sector>, v: Volume): (r: seq<byte>)
    requires v.start + v.blocks <= |sectors|
    ensures |r| == SECTOR * v.blocks
  {
    Flat(sectors[v.start..v.start + v.blocks])
  }

  lemma {:induction false} BytesAre(sectors: seq<Sector>, v: Volume)
    requires v.start + v.blocks <= |sectors|
    ensures Bytes(sectors, v) == Flat(sectors)[SECTOR * v.start..SECTOR * (v.start + v.blocks)]
  {
    FlatSlice(sectors, v.start, v.start + v.blocks);
  }

  /** The result that a return value stands for. */
  function Reported(r: Option<int>): Result {
    if r == None then Waiting else if r == Some(0) then Success else Failed
  }

  /** ata_read_blocks: 0 on success, -1 without a handler, 1 on failure; nothing when the run is cut off. The
      block count is cut to 32 bits. The volume's size is not looked at: a read yields the sectors that its commands
      name, which below sector 2^28 are the bytes of the drive there, as far as it has them. */
  method ReadBlocks(d: Drive, v: Volume, handler: bool, block: nat, blocks: nat, buf: array<byte>)
    returns (r: Option<int>)
    requires d.Valid() && d.id < 2 && SECTOR * (blocks % WORD) <= buf.Length
    modifies d`time, d`log, d`transfer, d`moved, d`regs, d`commands, buf
    ensures d.Valid() && (!handler ==> r == Some(-1)) && (r.Some? && handler ==> r.value == 0 || r.value == 1)
    ensures r == Some(0) ==> Fetched(d.sectors, v.start + block, blocks % WORD, Pieces(buf[..], 0, blocks % WORD))
    ensures r == Some(0) ==> Agrees(buf[..SECTOR * (blocks % WORD)], SECTOR * (v.start + block),
                                    Front(Flat(d.sectors), SECTOR * LBA28))
    ensures buf[SECTOR * (blocks % WORD)..] == old(buf[SECTOR * (blocks % WORD)..])
    ensures handler ==> Ends(Reported(r), d, old(d.time), true, PER_SECTOR * (blocks % WORD))
  {
    if !handler { return Some(-1); }
    ghost var was := buf[..];
    var count := blocks % WORD;
    ghost var asked, got;
    var res;
    res, asked, got := ReadSectors(d, block + v.start, count, buf, 0);
    BehindRead(was, buf[..], count, got);
    if res.Success? { InBuffer(d.sectors, was, buf[..], block + v.start, got); }
    return match res case Success => Some(0) case Failed => Some(1) case Waiting => None;
  }

  lemma BehindRead(was: seq<byte>, now: seq<byte>, count: nat, got: seq<Sector>)
    requires |got| <= count && SECTOR * count <= |was| && now == Overlay(was, 0, Flat(got))
    ensures |now| == |was| && now[SECTOR * count..] == was[SECTOR * count..]
  {
  }

  /** The sectors of a whole read, in the buffer. */
  lemma InBuffer(sectors: seq<Sector>, was: seq<byte>, now: seq<byte>, start: nat, got: seq<Sector>)
    requires SECTOR * |got| <= |was| && now == Overlay(was, 0, Flat(got)) && Fetched(sectors, start, |got|, got)
    ensures |now| == |was| && Pieces(now, 0, |got|) == got
    ensures Agrees(now[..SECTOR * |got|], SECTOR * start, Front(Flat(sectors), SECTOR * LBA28))
  {
    FetchedLow(sectors, start, |got|, got);
    FlatAgrees(got, start, Front(sectors, LBA28));
    FlatLow(sectors);
    assert now[..SECTOR * |got|] == Flat(got);
    PiecesOf(now, got);
  }

  /** Joined sectors cut into sectors again. */
  lemma {:induction false} PiecesOf(b: seq<byte>, got: seq<Sector>)
    requires SECTOR * |got| <= |b| && b[..SECTOR * |got|] == Flat(got)
    ensures Pieces(b, 0, |got|) == got
    decreases |got|
  {
    if got != [] {
      var last := |got| - 1;
      var front := got[..last];
      assert b[..SECTOR * last] == b[..SECTOR * |got|][..SECTOR * last];
      PiecesOf(b, front);
      LastPiece(b, Flat(front), got[last], last);
      assert got == front + [got[last]];
    }
  }

  lemma LastPiece(b: seq<byte>, front: seq<byte>, last: Sector, n: nat)
    requires |front| == SECTOR * n && SECTOR * (n + 1) <= |b| && b[..SECTOR * (n + 1)] == front + last
    ensures Piece(b, 0, n) == last
  {
    var c := b[..SECTOR * (n + 1)];
    assert c[SECTOR * n..] == last;
    assert Piece(b, 0, n) == c[SECTOR * n..];
  }

  /** Sectors of a buffer stored on a drive, as bytes. */
  lemma OnDrive(before: seq<Sector>, sectors: seq<Sector>, start: nat, count: nat, b: seq<byte>, done: nat)
    requires SECTOR * done <= |b| && Stored(before, sectors, start, count, Pieces(b, 0, done))
    ensures start + done <= LBA28 ==> Flat(sectors) == Overlay(Flat(before), SECTOR * start, b[..SECTOR * done])
  {
    if start + done <= LBA28 {
      var put := Pieces(b, 0, done);
      StoredLow(before, sectors, start, count, put);
      FlatOverlay(before, start, put);
      FlatPieces(b, 0, done);
    }
  }

  /** ata_write_blocks, likewise: the first `done` sectors of the buffer are on the drive where their commands name,
      all of them after a success, and no other sector has changed. Up to sector 2^28 these are the places meant. */
  method WriteBlocks(d: Drive, v: Volume, handler: bool, block: nat, blocks: nat, buf: array<byte>)
    returns (r: Option<int>, ghost done: nat)
    requires d.Valid() && d.id < 2 && SECTOR * (blocks % WORD) <= buf.Length
    modifies d`time, d`log, d`transfer, d`moved, d`regs, d`commands, d`sectors
    ensures d.Valid() && |d.sectors| == |old(d.sectors)| && done <= blocks % WORD
    ensures (!handler ==> r == Some(-1)) && (r.Some? && handler ==> r.value == 0 || r.value == 1)
    ensures r == Some(0) ==> done == blocks % WORD
    ensures Stored(old(d.sectors), d.sectors, v.start + block, blocks % WORD, Pieces(buf[..], 0, done))
    ensures handler ==> Ends(Reported(r), d, old(d.time), true, PER_SECTOR * (blocks % WORD))
    ensures v.start + block + done <= LBA28 ==>
              Flat(d.sectors) == Overlay(Flat(old(d.sectors)), SECTOR * (v.start + block), buf[..SECTOR * done])
  {
    done := 0;
    OverlayNone(Flat(d.sectors), SECTOR * (v.start + block));
    assert buf[..0] == [];
    if !handler { return Some(-1), 0; }
    var count := blocks % WORD;
    ghost var asked;
    ghost var was := d.sectors;
    var res;
    res, asked, done := WriteSectors(d, block + v.start, count, buf, 0);
    OnDrive(was, d.sectors, block + v.start, count, buf[..], done);
    r := match res case Success => Some(0) case Failed => Some(1) case Waiting => None;
  }
}
