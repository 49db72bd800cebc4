/** kernel/cdi/storage.c: byte ranges on top of a driver that moves whole blocks. */
module Storage {
  import opened Common
  import opened Ranges
  import opened AtaRegisters
  import opened AtaRequest
  import opened Ata

  const QWORD := 0x1_0000_0000_0000_0000

  // ---------- the driver below ----------

  /** How a driver call ends: with 0, with an error code, or not at all. */
  datatype Answer = Done | Error(code: int) | Hung

  /** `size` bytes from `at` on, with `junk` behind the end. */
  function Cut(b: seq<byte>, at: nat, size: nat, junk: nat -> byte): (r: seq<byte>)
    ensures |r| == size && Agrees(r, at, b)
  {
    seq(size, k requires 0 <= k < size => if at + k < |b| then b[at + k] else junk(at + k))
  }

  /** The front of `data` has been written. */
  lemma PartWritten(b: seq<byte>, c: seq<byte>, at: nat, put: seq<byte>, data: seq<byte>)
    requires put <= data && c == Overlay(b, at, put)
    ensures Outside(b, c, at, at + |data|) && (|put| == |data| ==> c == Overlay(b, at, data))
  {
    OverlayOutside(b, at, put);
    if |put| == |data| { assert put == data; }
  }

  /** A storage device, either on an ATA drive or on a driver that is free to do what it likes: it may fail any
      call, a failed write may leave anything in the blocks it was to write, and blocks outside the device it may
      refuse or answer with anything. */
  class Device {
    const bsize: nat                // the size of a block and of the device in bytes
    const size: nat
    const drive: Drive?             // an ATA drive,
    const volume: Volume            // the sectors of it that are the device,
    const handlers: bool            // and whether it can be read and written;
    const errs: nat -> int          // without one, the error of each call,
    const torn: nat -> seq<byte>    // what a failed write leaves,
    const junk: nat -> byte         // what lies behind the device,
    const refuses: bool             // and whether to refuse what lies there
    var bytes: seq<byte>
    var calls: nat
    ghost const base: nat           // where on the medium the device begins
    ghost var medium: seq<byte>     // all bytes that the driver can reach
    ghost var strayed: nat          // how often blocks outside the device were asked for

    ghost predicate Valid()
      reads this, drive
    {
      && 0 < bsize < WORD && size % bsize == 0
      && if drive == null then medium == bytes && base == 0 && size == |bytes| else OnDrive()
    }

    ghost predicate OnDrive()
      requires drive != null
      reads this, drive
    {
      && bsize == SECTOR && drive.Valid() && drive.id < 2
      && medium == Flat(drive.sectors) && base == SECTOR * volume.start && size == SECTOR * volume.blocks
    }

    /** The addresses of the device's blocks up to this byte go out to an ATA drive as they are meant. */
    ghost predicate Low(end: nat) {
      drive == null || base + end <= SECTOR * LBA28
    }

    /** The part of the medium that the driver can address. */
    ghost function Reach(): seq<byte>
      reads this`medium
    {
      if drive == null then medium else Front(medium, SECTOR * LBA28)
    }

    /** How far the time of an ATA drive has gone on. */
    ghost function Clock(): nat
      reads drive
    {
      if drive == null then 0 else drive.time
    }

    /** The device is on a willing ATA drive, and the run goes on long enough for so many bytes. */
    ghost predicate Eager(bytes: int)
      reads drive
    {
      drive != null && handlers && Willing(drive.answers) && drive.time + bytes <= drive.horizon
    }

    /** Why an ATA drive has not answered with success. */
    ghost predicate Explained(answer: Answer)
      reads drive
    {
      drive != null ==>
        && (answer.Hung? ==> drive.time == drive.horizon)
        && (answer.Error? ==> if handlers then answer.code == 1 && GaveUp(drive.log) else answer.code == -1)
    }

    /** The calls from `first` on have been done, but for the last one if it is not; then the answer is that call's, or
        the refusal of blocks outside the device. */
    ghost predicate PassedOn(answer: Answer, first: nat, strays: nat)
      reads this`calls, this`strayed, drive
    {
      && Explained(answer) && (answer.Error? ==> answer.code != 0)
      && (drive == null ==>
            && Ran(first, if answer.Done? then calls else calls - 1)
            && (!answer.Done? ==> first < calls && Failed(answer, errs(calls - 1), strays)))
    }

    ghost predicate Ran(first: int, end: int) { forall k: nat | first <= k < end :: errs(k) == 0 }

    ghost predicate Failed(answer: Answer, err: int, strays: nat)
      reads this`strayed
    {
      if err != 0 then answer == Error(err) else answer == Error(-1) && refuses && strayed > strays
    }

    /** From this call on the driver fails none, except those it refuses. */
    ghost predicate Healthy()
      reads this`calls
    {
      drive == null && forall i | i >= calls :: errs(i) == 0
    }

    predicate Inside(pos: nat, n: nat) {
      n == 0 || pos + n <= size
    }

    method ReadBlocks(start: nat, count: nat, ghost pos: nat) returns (answer: Answer, data: seq<byte>)
      requires Valid() && pos == start * bsize && count * bsize < WORD
      modifies this`calls, this`strayed, drive
      ensures Valid() && calls == old(calls) + 1
      ensures strayed == old(strayed) + if Inside(pos, count * bsize) then 0 else 1
      ensures answer.Done? ==> |data| == count * bsize && Agrees(data, base + pos, Reach())
      ensures PassedOn(answer, old(calls), old(strayed))
      ensures old(Eager(count * bsize)) ==> answer.Done? && Clock() <= old(Clock()) + count * bsize
      ensures drive == null ==> (answer.Done? <==> errs(old(calls)) == 0 && (Inside(pos, count * bsize) || !refuses))
    {
      var size, at := count * bsize, start * bsize;
      if !Inside(at, size) { strayed := strayed + 1; }
      data := [];
      if drive != null {
        answer, data := ReadDrive(start, count);
      } else if errs(calls) != 0 {
        answer := Error(errs(calls));
      } else if refuses && !Inside(at, size) {
        answer := Error(-1);
      } else {
        answer := Done;
        data := Cut(bytes, at, size, junk);
      }
      calls := calls + 1;
    }

    method ReadDrive(start: nat, count: nat) returns (answer: Answer, data: seq<byte>)
      requires Valid() && drive != null && count * bsize < WORD
      modifies drive
      ensures Valid() && drive.sectors == old(drive.sectors)
      ensures answer.Done? ==> |data| == SECTOR * count && Agrees(data, base + SECTOR * start, Reach())
      ensures answer.Error? ==> answer.code != 0
      ensures Explained(answer)
      ensures old(Eager(count * bsize)) ==> answer.Done? && Clock() <= old(Clock()) + count * bsize
    {
      var buf := new byte[SECTOR * count];
      Monotone(1, bsize, count);
      assert count % WORD == count;
      var r := Ata.ReadBlocks(drive, volume, handlers, start, count, buf);
      assert buf[..SECTOR * count] == buf[..];
      data := buf[..];
      answer := match r case None => Hung case Some(e) => if e == 0 then Done else Error(e);
    }

    method WriteBlocks(start: nat, count: nat, data: seq<byte>, ghost pos: nat) returns (answer: Answer)
      requires Valid() && pos == start * bsize && |data| == count * bsize < WORD
      modifies this`calls, this`strayed, this`bytes, this`medium, drive
      ensures Valid() && calls == old(calls) + 1 && |medium| == |old(medium)|
      ensures strayed == old(strayed) + if Inside(pos, |data|) then 0 else 1
      ensures answer.Done? && Low(pos + |data|) ==> medium == Overlay(old(medium), base + pos, data)
      ensures !answer.Done? && Low(pos + |data|) ==> Outside(old(medium), medium, base + pos, base + pos + |data|)
      ensures PassedOn(answer, old(calls), old(strayed))
      ensures old(Eager(count * bsize)) ==> answer.Done? && Clock() <= old(Clock()) + count * bsize
      ensures drive == null ==> (answer.Done? <==> errs(old(calls)) == 0 && (Inside(pos, |data|) || !refuses))
    {
      var at := start * bsize;
      var inside := Inside(at, |data|);
      if !inside { strayed := strayed + 1; }
      if drive != null {
        answer := WriteDrive(start, count, data);
      } else if errs(calls) != 0 {
        answer := Error(errs(calls));
        if |torn(calls)| == |data| {
          bytes := Overlay(bytes, at, torn(calls));
          medium := bytes;
        }
      } else if refuses && !inside {
        answer := Error(-1);
      } else {
        answer := Done;
        bytes := Overlay(bytes, at, data);
        medium := bytes;
      }
      calls := calls + 1;
    }

    method WriteDrive(start: nat, count: nat, data: seq<byte>) returns (answer: Answer)
      requires Valid() && drive != null && |data| == count * bsize < WORD
      modifies drive, this`medium
      ensures Valid() && |medium| == |old(medium)|
      ensures var at := base + SECTOR * start;
              Low(SECTOR * start + |data|) ==>
                if answer.Done? then medium == Overlay(old(medium), at, data) else Outside(old(medium), medium, at, at + |data|)
      ensures answer.Error? ==> answer.code != 0
      ensures Explained(answer)
      ensures old(Eager(count * bsize)) ==> answer.Done? && Clock() <= old(Clock()) + count * bsize
    {
      var r;
      ghost var put;
      r, put := PutSectors(start, count, data);
      ghost var after := Flat(drive.sectors);
      if Low(SECTOR * start + |data|) { PartWritten(medium, after, base + SECTOR * start, put, data); }
      medium := after;
      answer := match r case None => Hung case Some(e) => if e == 0 then Done else Error(e);
    }

    /** The call of the ATA driver, which takes `put` of the data. */
    method PutSectors(start: nat, count: nat, data: seq<byte>) returns (r: Option<int>, ghost put: seq<byte>)
      requires drive != null && drive.Valid() && drive.id < 2 && |data| == SECTOR * count < WORD
      modifies drive
      ensures drive.Valid() && |drive.sectors| == |old(drive.sectors)|
      ensures put <= data && (r == Some(0) ==> |put| == |data|)
      ensures if handlers then Ends(Reported(r), drive, old(drive.time), true, PER_SECTOR * count) else r == Some(-1)
      ensures r.Some? && handlers ==> r.value == 0 || r.value == 1
      ensures volume.start + start + count <= LBA28 ==>
                Flat(drive.sectors) == Overlay(Flat(old(drive.sectors)), SECTOR * (volume.start + start), put)
    {
      var buf := new byte[SECTOR * count](k requires 0 <= k < SECTOR * count => data[k]);
      assert count % WORD == count;
      assert buf[..] == data;
      ghost var done;
      r, done := Ata.WriteBlocks(drive, volume, handlers, start, count, buf);
      put := buf[..SECTOR * done];
      assert put <= data;
    }
  }

  /** On a willing drive the call is done, and takes no more time than the bytes it moves. */
  twostate predicate Prompt(dev: Device, done: bool, bytes: int)
    reads dev.drive
  {
    old(dev.Eager(bytes)) ==> done && dev.Clock() <= old(dev.Clock()) + bytes
  }

  // ---------- reading ----------

  /** What a read leaves in the caller's buffer. `Overrun`: the driver is handed a buffer smaller than the blocks
      it is asked for, or more is copied out of the buffer than it holds. */
  datatype Filled = Whole(data: seq<byte>) | Unread(answer: Answer) | Overrun

  /** The sum of two dwords, the difference of two small quadwords, and a successor, as the machine
      computes them. */
  function Sum32(a: nat, b: nat): int { if a + b >= WORD then a + b - WORD else a + b }

  function Diff64(a: nat, b: nat): int { if a < b then a - b + QWORD else a - b }

  function Next64(a: int): int { if a + 1 == QWORD then 0 else a + 1 }

  /** The first block, the number of blocks, the size of the buffer they go to, and whether that is the caller's.
      The size of the temporary buffer is cut to 32 bits. */
  datatype Plan = Plan(start: nat, count: nat, room: nat, direct: bool)

  function ReadPlan(bs: nat, offset: nat, size: nat): (r: Plan)
    requires bs > 0 && offset < WORD && size < WORD
  {
    var end: nat := Sum32(offset, size);
    DivBounds(offset, bs);
    DivBounds(end, bs);
    PlanOf(bs, offset / bs, end / bs, size, offset % bs == 0 && end % bs == 0)
  }

  function PlanOf(bs: nat, startblock: nat, endblock: nat, size: nat, aligned: bool): (r: Plan)
    requires bs > 0 && startblock < WORD && endblock < WORD
  {
    var numblocks := Diff64(endblock, startblock);
    if aligned then Plan(startblock, numblocks, size, true)
    else Plan(startblock, Next64(numblocks), Next64(numblocks) * bs % WORD, false)
  }

  predicate Overruns(p: Plan, bs: nat, offset: nat, size: nat)
    requires bs > 0
  {
    p.count * bs > p.room || (!p.direct && offset % bs + size > p.room)
  }

  /** The planned blocks cover the range; when they go straight to the buffer, they are the range. */
  lemma PlanCovers(bs: nat, offset: nat, size: nat)
    requires 0 < bs && offset < WORD && size < WORD && offset + size < WORD
    ensures var p := ReadPlan(bs, offset, size);
            && p.start * bs + offset % bs == offset
            && (p.start + p.count) * bs == p.start * bs + p.count * bs
            && (p.direct ==> offset % bs == 0 && p.count * bs == size)
            && (!p.direct ==> p.start + p.count == (offset + size) / bs + 1 && offset + size < (p.start + p.count) * bs)
            && (p.direct <==> offset % bs == 0 && (offset + size) % bs == 0)
            && p.count * bs <= size + 2 * bs
  {
    var end := offset + size;
    DivBounds(offset, bs);
    DivBounds(end, bs);
    DivMonotone(offset, end, bs);
    var start, n := offset / bs, end / bs - offset / bs;
    Distribute(start, n, bs);
    Distribute(n, 1, bs);
    Distribute(start, n + 1, bs);
  }

  predicate Amiss(p: Plan, bs: nat, offs: nat, size: nat) {
    p.start + p.count >= QWORD || (!p.direct && p.count * bs < offs + size)
  }

  /** Past 32 bits the plan asks for more blocks than any device has, or for fewer bytes than it copies. */
  lemma PlanWraps(bs: nat, offset: nat, size: nat)
    requires 0 < bs < WORD && offset < WORD && size < WORD <= offset + size
    ensures Amiss(ReadPlan(bs, offset, size), bs, offset % bs, size)
  {
    var end := offset + size - WORD;
    DivBounds(offset, bs);
    DivBounds(end, bs);
    BlocksWrap(bs, offset / bs, offset % bs, end / bs, end % bs, size);
  }

  lemma BlocksWrap(bs: nat, startblock: nat, offs: nat, endblock: nat, rest: nat, size: nat)
    requires 0 < bs < WORD && offs < bs && rest < bs && 0 < size < WORD && startblock < WORD
    requires startblock * bs + offs + size == endblock * bs + rest + WORD
    ensures endblock <= startblock && Amiss(PlanOf(bs, startblock, endblock, size, offs == 0 && rest == 0), bs, offs, size)
  {
    if startblock < endblock {
      Distribute(startblock, 1, bs);
      Monotone(startblock + 1, endblock, bs);
    }
    PlanOfWraps(bs, startblock, endblock, offs, size, offs == 0 && rest == 0);
  }

  lemma PlanOfWraps(bs: nat, startblock: nat, endblock: nat, offs: nat, size: nat, aligned: bool)
    requires 0 < bs && endblock <= startblock < WORD && size > 0
    requires endblock == startblock ==> !aligned && bs < offs + size
    ensures Amiss(PlanOf(bs, startblock, endblock, size, aligned), bs, offs, size)
  {
    var p := PlanOf(bs, startblock, endblock, size, aligned);
    if endblock + 1 < startblock || aligned {
      assert p.start + p.count >= QWORD;
    } else {
      assert p.count <= 1 && p.count * bs == if p.count == 0 then 0 else bs;
    }
  }

  /** When a buffer is too small: the range passes 2^32, or it is not aligned and its blocks take up 2^32 bytes. */
  predicate TooLong(bs: nat, offset: nat, size: nat)
    requires bs > 0
  {
    || offset + size >= WORD
    || (!(offset % bs == 0 && (offset + size) % bs == 0) && ((offset + size) / bs - offset / bs + 1) * bs >= WORD)
  }

  lemma OverrunsIff(bs: nat, offset: nat, size: nat)
    requires 0 < bs < WORD && offset < WORD && size < WORD
    ensures Overruns(ReadPlan(bs, offset, size), bs, offset, size) <==> TooLong(bs, offset, size)
  {
    var p := ReadPlan(bs, offset, size);
    if offset + size < WORD {
      PlanCovers(bs, offset, size);
      if !p.direct { RoomIs(p.count * bs, p.room); }
    } else {
      PlanWraps(bs, offset, size);
      DivBounds(offset, bs);
      Monotone(1, bs, p.count);
      if !p.direct { RoomIs(p.count * bs, p.room); }
    }
  }

  lemma RoomIs(bytes: nat, room: nat)
    requires room == bytes % WORD
    ensures room < WORD && room <= bytes && (bytes < WORD ==> room == bytes)
  {
  }

  /** A range that ends below 2^32, with blocks of 512 bytes, for which a buffer of no bytes is set aside. */
  lemma NeededWraps()
    ensures 1 + 0xFFFF_FFFE < WORD && TooLong(512, 1, 0xFFFF_FFFE) && ReadPlan(512, 1, 0xFFFF_FFFE).room == 0
  {
  }

  /** When a read asks only for blocks of the device: the range lies within it, except that one that starts inside
      a block must not end exactly at its end. */
  predicate ReadFits(total: nat, bs: nat, offset: nat, size: nat)
    requires bs > 0
  {
    || (size == 0 && offset % bs == 0)
    || (offset + size <= total && !(offset % bs != 0 && offset + size == total))
  }

  lemma PlanFits(total: nat, bs: nat, offset: nat, size: nat)
    requires 0 < bs && offset < WORD && size < WORD && offset + size < WORD && total % bs == 0
    ensures var p := ReadPlan(bs, offset, size);
            (p.count * bs == 0 || p.start * bs + p.count * bs <= total) <==> ReadFits(total, bs, offset, size)
  {
    var p := ReadPlan(bs, offset, size);
    PlanCovers(bs, offset, size);
    if !p.direct { BlockInside(total, bs, offset + size); }
  }

  /** For the last 24 bytes of a device of two blocks, a third is asked for. */
  lemma LastBytesStray()
    ensures !ReadFits(1024, 512, 1000, 24) && !TooLong(512, 1000, 24)
    ensures ReadPlan(512, 1000, 24) == Plan(1, 2, 1024, false)
  {
  }

  /** The plan, as dev_read computes it, and what it means on a device of `total` bytes. */
  method PlanRead(bs: nat, offset: nat, size: nat, ghost total: nat) returns (p: Plan, ghost pos: nat)
    requires 0 < bs < WORD && offset < WORD && size < WORD && total % bs == 0
    ensures pos == p.start * bs && pos + offset % bs == offset
    ensures Overruns(p, bs, offset, size) <==> TooLong(bs, offset, size)
    ensures !TooLong(bs, offset, size) && !p.direct ==> offset % bs + size <= p.count * bs
    ensures !TooLong(bs, offset, size) ==>
              && ((p.count * bs == 0 || pos + p.count * bs <= total) <==> ReadFits(total, bs, offset, size))
              && (p.direct ==> offset % bs == 0 && p.count * bs == size)
              && p.count * bs < WORD && p.count * bs <= size + 2 * bs
  {
    p := ReadPlan(bs, offset, size);
    pos := p.start * bs;
    DivBounds(offset, bs);
    OverrunsIff(bs, offset, size);
    if offset + size < WORD {
      PlanCovers(bs, offset, size);
      PlanFits(total, bs, offset, size);
    }
    if !p.direct { RoomIs(p.count * bs, p.room); }
  }

  /** The driver call of dev_read and the copy out of the temporary buffer. */
  method ReadPlanned(dev: Device, p: Plan, offs: nat, size: nat, ghost pos: nat) returns (out: Filled)
    requires dev.Valid() && pos == p.start * dev.bsize && p.count * dev.bsize < WORD
    requires if p.direct then offs == 0 && p.count * dev.bsize == size else offs + size <= p.count * dev.bsize
    modifies dev`calls, dev`strayed, dev.drive
    ensures dev.Valid() && dev.calls == old(dev.calls) + 1
    ensures !out.Overrun? && (out.Whole? ==> |out.data| == size && Agrees(out.data, dev.base + pos + offs, dev.Reach()))
    ensures out.Unread? ==> !out.answer.Done? && dev.PassedOn(out.answer, old(dev.calls), old(dev.strayed))
    ensures dev.strayed == old(dev.strayed) + if dev.Inside(pos, p.count * dev.bsize) then 0 else 1
    ensures dev.drive == null ==>
              (out.Whole? <==> dev.errs(old(dev.calls)) == 0 && (dev.Inside(pos, p.count * dev.bsize) || !dev.refuses))
    ensures Prompt(dev, out.Whole?, p.count * dev.bsize)
  {
    var answer, data := dev.ReadBlocks(p.start, p.count, pos);
    if !answer.Done? { return Unread(answer); }
    if p.direct { return Whole(data); }
    AgreesPart(data, dev.base + pos, dev.Reach(), offs, offs + size);
    return Whole(data[offs..offs + size]);
  }

  /** The blocks of the range end by sector 2^28, if they are on an ATA drive. */
  ghost predicate LowEnough(dev: Device, offset: nat, size: nat)
    requires dev.bsize > 0
  {
    dev.Low(BlockEnd(offset + size, dev.bsize))
  }

  /** dev_read. A success returns exactly the bytes of the range, as far as the medium has them and 28
      bits of sector address reach. A buffer is overrun
      exactly if the range is too long. Blocks outside the device are asked for exactly if the read does not fit,
      which a driver that refuses them fails. */
  method DevRead(dev: Device, size: nat, offset: nat) returns (out: Filled)
    requires dev.Valid() && size < WORD && offset < WORD
    modifies dev`calls, dev`strayed, dev.drive
    ensures dev.Valid() && dev.calls >= old(dev.calls) && dev.strayed >= old(dev.strayed)
    ensures out.Overrun? <==> TooLong(dev.bsize, offset, size)
    ensures out.Whole? ==> |out.data| == size && Agrees(out.data, dev.base + offset, dev.Reach())
    ensures out.Unread? ==> !out.answer.Done? && dev.PassedOn(out.answer, old(dev.calls), old(dev.strayed))
    ensures !out.Overrun? ==> (dev.strayed == old(dev.strayed) <==> ReadFits(dev.size, dev.bsize, offset, size))
    ensures !out.Overrun? && dev.drive == null ==>
              && dev.calls == old(dev.calls) + 1
              && (out.Whole? <==>
                  dev.errs(old(dev.calls)) == 0 && (ReadFits(dev.size, dev.bsize, offset, size) || !dev.refuses))
    ensures !out.Overrun? ==> Prompt(dev, out.Whole?, size + 2 * dev.bsize)
  {
    var bs := dev.bsize;
    var p;
    ghost var pos;
    p, pos := PlanRead(bs, offset, size, dev.size);
    if Overruns(p, bs, offset, size) { return Overrun; }
    out := ReadPlanned(dev, p, offset % bs, size, pos);
  }

  /** So a driver that refuses that block does not read them. */
  method LastBytesRefused(dev: Device) returns (out: Filled)
    requires dev.Valid() && dev.Healthy() && dev.refuses && dev.bsize == 512 && dev.size == 1024
    modifies dev`calls, dev`strayed, dev.drive
    ensures out.Unread?
  {
    LastBytesStray();
    out := DevRead(dev, 24, 1000);
  }

  // ---------- writing ----------

  /** Every step of a write leaves the device usable. */
  twostate predicate Kept(dev: Device)
    reads dev, dev.drive
  {
    && dev.Valid() && |dev.medium| == |old(dev.medium)|
    && dev.calls >= old(dev.calls) && dev.strayed >= old(dev.strayed)
  }

  /** A write of `x` at byte `at` of the device that ended with `answer`, and that touches the bytes [lo, hi). */
  ghost predicate WroteAs(answer: Answer, base: nat, before: seq<byte>, after: seq<byte>, at: nat, x: seq<byte>,
                          lo: nat, hi: nat)
  {
    if answer.Done? then after == Overlay(before, base + at, x) else Outside(before, after, base + lo, base + hi)
  }

  lemma AgreesFront(x: seq<byte>, at: nat, b: seq<byte>, n: nat)
    ensures Agrees(x, at, Front(b, n)) && at + |x| <= n ==> Agrees(x, at, b)
  {
    if Agrees(x, at, Front(b, n)) && at + |x| <= n {
      forall k | 0 <= k < |x| && at + k < |b| ensures x[k] == b[at + k] { assert x[k] == Front(b, n)[at + k]; }
    }
  }

  /** Only blocks of the device have been asked for if the range fits; after a success, only then. */
  ghost predicate StrayedIff(answer: Answer, before: nat, after: nat, fits: bool) {
    (fits ==> after == before) && (answer.Done? && after == before ==> fits)
  }

  /** Read the block at `pos`, change part of it, write it back. */
  method PatchBlock(dev: Device, block: nat, at: nat, data: seq<byte>, ghost pos: nat) returns (answer: Answer)
    requires dev.Valid() && at + |data| <= dev.bsize && pos == block * dev.bsize
    modifies dev`calls, dev`strayed, dev`bytes, dev`medium, dev.drive
    ensures Kept(dev) && dev.PassedOn(answer, old(dev.calls), old(dev.strayed))
    ensures dev.Low(pos + dev.bsize) ==>
              WroteAs(answer, dev.base, old(dev.medium), dev.medium, pos + at, data, pos, pos + dev.bsize)
    ensures StrayedIff(answer, old(dev.strayed), dev.strayed, pos + dev.bsize <= dev.size)
    ensures old(dev.Healthy()) ==> (answer.Done? <==> pos + dev.bsize <= dev.size || !dev.refuses)
    ensures Prompt(dev, answer.Done?, 2 * dev.bsize)
  {
    ghost var b := dev.medium;
    var buffer;
    answer, buffer := GetBlock(dev, block, pos);
    if !answer.Done? { return; }
    var patched := Overlay(buffer, at, data);
    ghost var low := dev.Low(pos + dev.bsize);
    answer := PutBlock(dev, block, patched, pos);
    if low { PatchWrote(answer, dev.base, b, dev.medium, pos, at, buffer, patched, data); }
  }

  /** A block written back with a part changed is that part written. */
  lemma PatchWrote(answer: Answer, base: nat, b: seq<byte>, c: seq<byte>, pos: nat, at: nat, buffer: seq<byte>,
                   patched: seq<byte>, x: seq<byte>)
    requires Agrees(buffer, base + pos, b) && at + |x| <= |buffer| && patched == Overlay(buffer, at, x)
    requires WroteAs(answer, base, b, c, pos, patched, pos, pos + |buffer|)
    ensures WroteAs(answer, base, b, c, pos + at, x, pos, pos + |buffer|)
  {
    OverlayPiece(b, base + pos, buffer, at, x);
  }

  /** Read one block. */
  method GetBlock(dev: Device, block: nat, ghost pos: nat) returns (answer: Answer, data: seq<byte>)
    requires dev.Valid() && pos == block * dev.bsize
    modifies dev`calls, dev`strayed, dev.drive
    ensures dev.Valid() && dev.calls >= old(dev.calls) && dev.PassedOn(answer, old(dev.calls), old(dev.strayed))
    ensures answer.Done? ==> |data| == dev.bsize && (dev.Low(pos + dev.bsize) ==> Agrees(data, dev.base + pos, dev.medium))
    ensures dev.strayed == old(dev.strayed) + if pos + dev.bsize <= dev.size then 0 else 1
    ensures old(dev.Healthy()) ==> dev.Healthy() && (answer.Done? <==> pos + dev.bsize <= dev.size || !dev.refuses)
    ensures Prompt(dev, answer.Done?, dev.bsize)
  {
    answer, data := dev.ReadBlocks(block, 1, pos);
    AgreesFront(data, dev.base + pos, dev.medium, SECTOR * LBA28);
  }

  /** Write one block. */
  method PutBlock(dev: Device, block: nat, data: seq<byte>, ghost pos: nat) returns (answer: Answer)
    requires dev.Valid() && |data| == dev.bsize && pos == block * dev.bsize
    modifies dev`calls, dev`strayed, dev`bytes, dev`medium, dev.drive
    ensures Kept(dev) && dev.PassedOn(answer, old(dev.calls), old(dev.strayed))
    ensures dev.Low(pos + dev.bsize) ==>
              WroteAs(answer, dev.base, old(dev.medium), dev.medium, pos, data, pos, pos + dev.bsize)
    ensures dev.strayed == old(dev.strayed) + if pos + dev.bsize <= dev.size then 0 else 1
    ensures old(dev.Healthy()) ==> (answer.Done? <==> pos + dev.bsize <= dev.size || !dev.refuses)
    ensures Prompt(dev, answer.Done?, dev.bsize)
  {
    answer := dev.WriteBlocks(block, 1, data, pos);
  }

  /** The whole blocks at the front, written from `pos` on. */
  method WriteWhole(dev: Device, front: seq<byte>, block: nat, numblocks: nat, ghost pos: nat) returns (answer: Answer)
    requires dev.Valid() && |front| == numblocks * dev.bsize < WORD && pos == block * dev.bsize
    modifies dev`calls, dev`strayed, dev`bytes, dev`medium, dev.drive
    ensures Kept(dev) && dev.PassedOn(answer, old(dev.calls), old(dev.strayed))
    ensures dev.Low(pos + |front|) ==>
              WroteAs(answer, dev.base, old(dev.medium), dev.medium, pos, front, pos, pos + |front|)
    ensures StrayedIff(answer, old(dev.strayed), dev.strayed, front == [] || pos + |front| <= dev.size)
    ensures old(dev.Healthy()) ==> (answer.Done? <==> front == [] || pos + |front| <= dev.size || !dev.refuses)
    ensures Prompt(dev, answer.Done?, |front|)
  {
    answer := Done;
    OverlayNone(dev.medium, dev.base + pos);
    if numblocks > 0 {
      Monotone(1, numblocks, dev.bsize);
      answer := dev.WriteBlocks(block, numblocks, front, pos);
    }
  }

  /** What is left behind the whole blocks, if anything. */
  method WriteTail(dev: Device, tail: seq<byte>, block: nat, ghost pos: nat, ghost end: nat) returns (answer: Answer)
    requires dev.Valid() && |tail| < dev.bsize && pos == block * dev.bsize
    requires end == if tail == [] then pos else pos + dev.bsize
    modifies dev`calls, dev`strayed, dev`bytes, dev`medium, dev.drive
    ensures Kept(dev) && dev.PassedOn(answer, old(dev.calls), old(dev.strayed))
    ensures dev.Low(end) ==>
              WroteAs(answer, dev.base, old(dev.medium), dev.medium, pos, tail, pos, end)
    ensures StrayedIff(answer, old(dev.strayed), dev.strayed, tail == [] || pos + |tail| <= dev.size)
    ensures old(dev.Healthy()) ==> (answer.Done? <==> tail == [] || pos + |tail| <= dev.size || !dev.refuses)
    ensures Prompt(dev, answer.Done?, 2 * dev.bsize)
  {
    if tail == [] {
      OverlayNone(dev.medium, dev.base + pos);
      return Done;
    }
    PartInside(dev.size, dev.bsize, block, pos, |tail|);
    answer := PatchBlock(dev, block, 0, tail, pos);
  }

  /** The part of dev_write from the first block boundary on: whole blocks, then the rest. */
  method WriteAligned(dev: Device, src: seq<byte>, block: nat, ghost pos: nat, ghost end: nat) returns (answer: Answer)
    requires dev.Valid() && |src| < WORD && pos == block * dev.bsize && end == pos + BlockEnd(|src|, dev.bsize)
    modifies dev`calls, dev`strayed, dev`bytes, dev`medium, dev.drive
    ensures Kept(dev) && dev.PassedOn(answer, old(dev.calls), old(dev.strayed))
    ensures dev.Low(end) ==> WroteAs(answer, dev.base, old(dev.medium), dev.medium, pos, src, pos, end)
    ensures StrayedIff(answer, old(dev.strayed), dev.strayed, src == [] || pos + |src| <= dev.size)
    ensures old(dev.Healthy()) ==> (answer.Done? <==> src == [] || pos + |src| <= dev.size || !dev.refuses)
    ensures Prompt(dev, answer.Done?, |src| + 2 * dev.bsize)
  {
    var numblocks, whole := PlanWhole(|src|, dev.bsize, block);
    var front, tail := src[..whole], src[whole..];
    assert front + tail == src;
    answer := WriteParts(dev, front, tail, block, numblocks, pos, end);
  }

  method PlanWhole(size: nat, bs: nat, ghost block: nat) returns (numblocks: nat, whole: nat)
    requires bs > 0
    ensures whole == numblocks * bs <= size < whole + bs && (block + numblocks) * bs == block * bs + whole
    ensures BlockEnd(size, bs) == if whole == size then whole else whole + bs
  {
    DivBounds(size, bs);
    numblocks := size / bs;
    whole := numblocks * bs;
    Distribute(block, numblocks, bs);
  }

  method WriteParts(dev: Device, front: seq<byte>, tail: seq<byte>, block: nat, numblocks: nat, ghost pos: nat, ghost end: nat)
    returns (answer: Answer)
    requires dev.Valid() && |front| + |tail| < WORD && pos == block * dev.bsize
    requires |front| == numblocks * dev.bsize && |tail| < dev.bsize && (block + numblocks) * dev.bsize == pos + |front|
    requires end == pos + |front| + if tail == [] then 0 else dev.bsize
    modifies dev`calls, dev`strayed, dev`bytes, dev`medium, dev.drive
    ensures Kept(dev) && dev.PassedOn(answer, old(dev.calls), old(dev.strayed))
    ensures dev.Low(end) ==> WroteAs(answer, dev.base, old(dev.medium), dev.medium, pos, front + tail, pos, end)
    ensures StrayedIff(answer, old(dev.strayed), dev.strayed, front + tail == [] || pos + |front + tail| <= dev.size)
    ensures old(dev.Healthy()) ==> (answer.Done? <==> front + tail == [] || pos + |front + tail| <= dev.size || !dev.refuses)
    ensures Prompt(dev, answer.Done?, |front| + 2 * dev.bsize)
  {
    ghost var b, base, low := dev.medium, dev.base, dev.Low(end);
    answer := WriteWhole(dev, front, block, numblocks, pos);
    if !answer.Done? {
      if low { WroteWider(answer, base, b, dev.medium, pos, front, front + tail, pos, pos + |front|, end); }
      return;
    }
    ghost var c := dev.medium;
    answer := WriteTail(dev, tail, block + numblocks, pos + |front|, end);
    if low { WroteBoth(answer, base, b, c, dev.medium, pos, front, tail, pos, pos + |front|, end); }
  }

  /** A write that failed, as part of a larger one. */
  lemma WroteWider(answer: Answer, base: nat, b: seq<byte>, c: seq<byte>, at: nat, x: seq<byte>, all: seq<byte>, lo: nat,
                   mid: nat, hi: nat)
    requires !answer.Done? && WroteAs(answer, base, b, c, at, x, lo, mid) && mid <= hi
    ensures WroteAs(answer, base, b, c, at, all, lo, hi)
  {
    OutsideWider(b, c, base + lo, base + mid, base + lo, base + hi);
  }

  /** After a write that was done, another one behind it. */
  lemma WroteBoth(answer: Answer, base: nat, b: seq<byte>, c: seq<byte>, d: seq<byte>, at: nat,
                  x: seq<byte>, y: seq<byte>, lo: nat, mid: nat, hi: nat)
    requires c == Overlay(b, base + at, x) && lo <= at && at + |x| <= hi && lo <= mid
    requires WroteAs(answer, base, c, d, at + |x|, y, mid, hi)
    ensures WroteAs(answer, base, b, d, at, x + y, lo, hi)
  {
    if answer.Done? {
      OverlayJoin(b, base + at, x, y);
    } else {
      OverlayOutside(b, base + at, x);
      OutsideWider(b, c, base + at, base + at + |x|, base + lo, base + hi);
      OutsideWider(c, d, base + mid, base + hi, base + lo, base + hi);
      OutsideTrans(b, c, d, base + lo, base + hi);
    }
  }

  /** The part of dev_write behind the first block, if there is any; `at` is where the range goes on. */
  method WriteRest(dev: Device, rest: seq<byte>, block: nat, ghost at: nat, ghost pos: nat, ghost end: nat)
    returns (answer: Answer)
    requires dev.Valid() && |rest| < WORD && pos == block * dev.bsize
    requires (rest != [] ==> at == pos) && end == pos + BlockEnd(|rest|, dev.bsize)
    modifies dev`calls, dev`strayed, dev`bytes, dev`medium, dev.drive
    ensures Kept(dev) && dev.PassedOn(answer, old(dev.calls), old(dev.strayed))
    ensures dev.Low(end) ==> WroteAs(answer, dev.base, old(dev.medium), dev.medium, at, rest, pos, end)
    ensures StrayedIff(answer, old(dev.strayed), dev.strayed, rest == [] || at + |rest| <= dev.size)
    ensures old(dev.Healthy()) ==> (answer.Done? <==> rest == [] || at + |rest| <= dev.size || !dev.refuses)
    ensures Prompt(dev, answer.Done?, |rest| + 2 * dev.bsize)
  {
    ghost var b := dev.medium;
    answer := WriteAligned(dev, rest, block, pos, end);
    if rest == [] { OverlayNone(b, dev.base + pos); OverlayNone(b, dev.base + at); }
  }

  /** The part of a range that lies in its first block. */
  method WriteHead(dev: Device, head: seq<byte>, block: nat, unaligned: nat, ghost at: nat, ghost pos: nat)
    returns (answer: Answer)
    requires dev.Valid() && pos == block * dev.bsize && at == pos + unaligned
    requires 0 < unaligned && unaligned + |head| <= dev.bsize
    modifies dev`calls, dev`strayed, dev`bytes, dev`medium, dev.drive
    ensures Kept(dev) && dev.PassedOn(answer, old(dev.calls), old(dev.strayed))
    ensures dev.Low(pos + dev.bsize) ==>
              WroteAs(answer, dev.base, old(dev.medium), dev.medium, at, head, pos, pos + dev.bsize)
    ensures StrayedIff(answer, old(dev.strayed), dev.strayed, at + |head| <= dev.size)
    ensures old(dev.Healthy()) ==> (answer.Done? <==> at + |head| <= dev.size || !dev.refuses)
    ensures Prompt(dev, answer.Done?, 2 * dev.bsize)
  {
    PartInside(dev.size, dev.bsize, block, pos, unaligned + |head|);
    answer := PatchBlock(dev, block, unaligned, head, pos);
  }

  /** A range that starts inside the block at `pos`: read, change and write back that block with the head of the
      range, then write the rest. */
  method WriteSplit(dev: Device, head: seq<byte>, rest: seq<byte>, block: nat, unaligned: nat, ghost at: nat, ghost pos: nat,
                    ghost end: nat)
    returns (answer: Answer)
    requires dev.Valid() && |head| + |rest| < WORD && pos == block * dev.bsize && at == pos + unaligned
    requires 0 < unaligned && unaligned + |head| <= dev.bsize && (rest != [] ==> unaligned + |head| == dev.bsize)
    requires (block + 1) * dev.bsize == pos + dev.bsize && end == pos + dev.bsize + BlockEnd(|rest|, dev.bsize)
    modifies dev`calls, dev`strayed, dev`bytes, dev`medium, dev.drive
    ensures Kept(dev) && dev.PassedOn(answer, old(dev.calls), old(dev.strayed))
    ensures dev.Low(end) ==> WroteAs(answer, dev.base, old(dev.medium), dev.medium, at, head + rest, pos, end)
    ensures StrayedIff(answer, old(dev.strayed), dev.strayed, at + |head + rest| <= dev.size)
    ensures old(dev.Healthy()) ==> (answer.Done? <==> at + |head + rest| <= dev.size || !dev.refuses)
    ensures Prompt(dev, answer.Done?, |rest| + 4 * dev.bsize)
  {
    ghost var b, base, low := dev.medium, dev.base, dev.Low(end);
    answer := WriteHead(dev, head, block, unaligned, at, pos);
    if !answer.Done? {
      if low { WroteWider(answer, base, b, dev.medium, at, head, head + rest, pos, pos + dev.bsize, end); }
      return;
    }
    ghost var c := dev.medium;
    answer := WriteRest(dev, rest, block + 1, at + |head|, pos + dev.bsize, end);
    if low { WroteBoth(answer, base, b, c, dev.medium, at, head, rest, pos, pos + dev.bsize, end); }
  }

  /** How much of the range lies in its first block. */
  method PlanHead(bs: nat, unaligned: nat, size: nat, ghost block: nat, ghost pos: nat, ghost end: nat)
    returns (tmpsize: nat)
    requires 0 < unaligned < bs && pos == block * bs && end == pos + BlockEnd(unaligned + size, bs)
    ensures tmpsize <= size && unaligned + tmpsize <= bs && (tmpsize < size ==> unaligned + tmpsize == bs)
    ensures (block + 1) * bs == pos + bs && end == pos + bs + BlockEnd(size - tmpsize, bs)
  {
    tmpsize := if bs - unaligned > size then size else bs - unaligned;
    EndsAfter(bs, unaligned, size, tmpsize);
    Distribute(block, 1, bs);
  }

  /** dev_write of a range that starts inside a block. */
  method WriteUnaligned(dev: Device, buffer: seq<byte>, block: nat, unaligned: nat, ghost pos: nat, ghost end: nat)
    returns (answer: Answer)
    requires dev.Valid() && |buffer| < WORD && 0 < unaligned < dev.bsize && pos == block * dev.bsize
    requires end == pos + BlockEnd(unaligned + |buffer|, dev.bsize)
    modifies dev`calls, dev`strayed, dev`bytes, dev`medium, dev.drive
    ensures Kept(dev) && dev.PassedOn(answer, old(dev.calls), old(dev.strayed))
    ensures dev.Low(end) ==>
              WroteAs(answer, dev.base, old(dev.medium), dev.medium, pos + unaligned, buffer, pos, end)
    ensures StrayedIff(answer, old(dev.strayed), dev.strayed, pos + unaligned + |buffer| <= dev.size)
    ensures old(dev.Healthy()) ==> (answer.Done? <==> pos + unaligned + |buffer| <= dev.size || !dev.refuses)
    ensures Prompt(dev, answer.Done?, |buffer| + 4 * dev.bsize)
  {
    var tmpsize := PlanHead(dev.bsize, unaligned, |buffer|, block, pos, end);
    var head, rest := buffer[..tmpsize], buffer[tmpsize..];
    assert head + rest == buffer;
    answer := WriteSplit(dev, head, rest, block, unaligned, pos + unaligned, pos, end);
  }

  /** When a write asks only for blocks of the device. */
  predicate WriteFits(total: nat, bs: nat, offset: nat, size: nat)
    requires bs > 0
  {
    offset + size <= total || (size == 0 && offset % bs == 0)
  }

  /** dev_write. A success leaves `buffer` at `offset`, as far as the medium reaches, and every other byte as it was;
      a failure leaves the blocks that the range does not touch as they were. Blocks outside the device are asked for
      by a write that fits never, and by one that does not, unless it fails; a driver that refuses them fails it. */
  method DevWrite(dev: Device, buffer: seq<byte>, offset: nat) returns (answer: Answer)
    requires dev.Valid() && |buffer| < WORD && offset < WORD
    modifies dev`calls, dev`strayed, dev`bytes, dev`medium, dev.drive
    ensures Kept(dev) && dev.PassedOn(answer, old(dev.calls), old(dev.strayed))
    ensures LowEnough(dev, offset, |buffer|) ==>
              WroteAs(answer, dev.base, old(dev.medium), dev.medium, offset, buffer,
                      BlockStart(offset, dev.bsize), BlockEnd(offset + |buffer|, dev.bsize))
    ensures StrayedIff(answer, old(dev.strayed), dev.strayed, WriteFits(dev.size, dev.bsize, offset, |buffer|))
    ensures old(dev.Healthy()) ==>
              (answer.Done? <==> WriteFits(dev.size, dev.bsize, offset, |buffer|) || !dev.refuses)
    ensures Prompt(dev, answer.Done?, |buffer| + 4 * dev.bsize)
  {
    var bs := dev.bsize;
    var startblock, unaligned;
    ghost var pos, end;
    startblock, unaligned, pos, end := PlanWrite(bs, offset, |buffer|);
    if unaligned == 0 {
      answer := WriteAligned(dev, buffer, startblock, pos, end);
    } else {
      answer := WriteUnaligned(dev, buffer, startblock, unaligned, pos, end);
    }
  }

  method PlanWrite(bs: nat, offset: nat, size: nat)
    returns (startblock: nat, unaligned: nat, ghost pos: nat, ghost end: nat)
    requires bs > 0
    ensures unaligned == offset % bs < bs && pos == startblock * bs && pos + unaligned == offset
    ensures pos == BlockStart(offset, bs) && end == BlockEnd(offset + size, bs) == pos + BlockEnd(unaligned + size, bs)
  {
    DivBounds(offset, bs);
    startblock, unaligned := offset / bs, offset % bs;
    pos, end := startblock * bs, BlockEnd(offset + size, bs);
    ModShift(startblock, unaligned + size, bs);
  }

  /** A range that was written is read back, by any driver that reports both as done. */
  method WriteThenRead(dev: Device, buffer: seq<byte>, offset: nat) returns (answer: Answer, out: Filled)
    requires dev.Valid() && 0 < |buffer| < WORD && offset < WORD
    modifies dev`calls, dev`strayed, dev`bytes, dev`medium, dev.drive
    ensures Kept(dev)
    ensures LowEnough(dev, offset, |buffer|) ==>
              WroteAs(answer, dev.base, old(dev.medium), dev.medium, offset, buffer,
                      BlockStart(offset, dev.bsize), BlockEnd(offset + |buffer|, dev.bsize))
    ensures answer.Done? && out.Whole? && LowEnough(dev, offset, |buffer|) && dev.base + offset + |buffer| <= |dev.medium| ==>
              out.data == buffer
    ensures old(dev.Healthy()) ==>
              && (answer.Done? <==> offset + |buffer| <= dev.size || !dev.refuses)
              && (answer.Done? && out.Whole? <==>
                  !TooLong(dev.bsize, offset, |buffer|) && (ReadFits(dev.size, dev.bsize, offset, |buffer|) || !dev.refuses))
    ensures old(dev.Eager(2 * |buffer| + 6 * dev.bsize)) ==>
              answer.Done? && (out.Whole? <==> !TooLong(dev.bsize, offset, |buffer|))
  {
    ghost var b := dev.medium;
    answer := DevWrite(dev, buffer, offset);
    ghost var c := dev.medium;
    out := DevRead(dev, |buffer|, offset);
    assert dev.medium == c;
    FitsBoth(dev.size, dev.bsize, offset, |buffer|);
    if answer.Done? && out.Whole? && LowEnough(dev, offset, |buffer|) && dev.base + offset + |buffer| <= |dev.medium| {
      GivesBack(b, dev.medium, dev.Reach(), dev.base + offset, out.data, buffer);
    }
  }

  /** What can be read without straying can be written. */
  lemma FitsBoth(total: nat, bs: nat, offset: nat, size: nat)
    requires bs > 0 && size > 0
    ensures WriteFits(total, bs, offset, size) <==> offset + size <= total
    ensures ReadFits(total, bs, offset, size) ==> WriteFits(total, bs, offset, size)
  {
  }

  /** What is read from where `x` was written, within reach. */
  lemma GivesBack(b: seq<byte>, c: seq<byte>, reach: seq<byte>, at: nat, data: seq<byte>, x: seq<byte>)
    requires c == Overlay(b, at, x) && at + |x| <= |c| && |data| == |x| && Agrees(data, at, reach)
    requires reach == c || (reach == Front(c, SECTOR * LBA28) && at + |x| <= SECTOR * LBA28)
    ensures data == x
  {
    forall k | 0 <= k < |x| ensures data[k] == x[k] { assert data[k] == reach[at + k] == c[at + k]; }
  }

  /** A write within a volume, seen from the volume. */
  lemma OnVolume(answer: Answer, before: seq<Sector>, after: seq<Sector>, v: Volume, offset: nat,
                 buffer: seq<byte>, lo: nat, hi: nat)
    requires v.start + v.blocks <= |before| == |after| && offset + |buffer| <= SECTOR * v.blocks
    requires lo <= offset && hi <= SECTOR * v.blocks
    requires WroteAs(answer, SECTOR * v.start, Flat(before), Flat(after), offset, buffer, lo, hi)
    ensures var (b, c) := (Bytes(before, v), Bytes(after, v));
            if answer.Done? then c == Overlay(b, offset, buffer) else Outside(b, c, lo, hi)
    ensures Outside(Flat(before), Flat(after), SECTOR * v.start, SECTOR * v.start + SECTOR * v.blocks)
  {
    var from, to := SECTOR * v.start, SECTOR * (v.start + v.blocks);
    BytesAre(before, v);
    BytesAre(after, v);
    if answer.Done? {
      OverlayPart(Flat(before), from, to, offset, buffer);
      OverlayOutside(Flat(before), from + offset, buffer);
      OutsideWider(Flat(before), Flat(after), from + offset, from + offset + |buffer|, from, to);
    } else {
      OutsidePart(Flat(before), Flat(after), from, to, lo, hi);
      OutsideWider(Flat(before), Flat(after), from + lo, from + hi, from, to);
    }
  }

  lemma EndWithin(n: nat, bs: nat, blocks: nat)
    requires bs > 0 && n <= blocks * bs
    ensures BlockEnd(n, bs) <= blocks * bs && BlockStart(n, bs) <= n
  {
    DivBounds(n, bs);
    if blocks <= n / bs {
      Monotone(blocks, n / bs, bs);
      if blocks < n / bs { Distribute(blocks, 1, bs); Monotone(blocks + 1, n / bs, bs); }
    } else {
      Distribute(n / bs, 1, bs);
      Monotone(n / bs + 1, blocks, bs);
    }
  }

  /** The whole stack: a range within a partition that ends by sector 2^28 of an ATA drive is written and read back through
      dev_write, dev_read, ata_write_blocks, ata_read_blocks and the registers. The bytes of the partition are as
      before with the buffer in its place, or after a failure as before outside the blocks touched; no byte of the
      drive outside the partition changes; and what is read is the buffer. */
  method OnPartition(dev: Device, drive: Drive, buffer: seq<byte>, offset: nat) returns (answer: Answer, out: Filled)
    requires dev.Valid() && dev.drive == drive && 0 < |buffer| && offset + |buffer| <= dev.size && offset + |buffer| < WORD
    requires dev.volume.start + dev.volume.blocks <= |drive.sectors| && dev.volume.start + dev.volume.blocks <= LBA28
    modifies dev`calls, dev`strayed, dev`bytes, dev`medium, drive
    ensures dev.volume.start + dev.volume.blocks <= |drive.sectors|
    ensures var (b, c) := (Bytes(old(drive.sectors), dev.volume), Bytes(drive.sectors, dev.volume));
            if answer.Done? then c == Overlay(b, offset, buffer)
            else Outside(b, c, BlockStart(offset, SECTOR), BlockEnd(offset + |buffer|, SECTOR))
    ensures Outside(Flat(old(drive.sectors)), Flat(drive.sectors), dev.base, dev.base + dev.size)
    ensures answer.Done? && out.Whole? ==> out.data == buffer
    ensures old(dev.Eager(2 * |buffer| + 6 * SECTOR)) ==> answer.Done? && (out.Whole? <==> !TooLong(SECTOR, offset, |buffer|))
  {
    ghost var before := drive.sectors;
    EndWithin(offset + |buffer|, SECTOR, dev.volume.blocks);
    answer, out := WriteThenRead(dev, buffer, offset);
    OnVolume(answer, before, drive.sectors, dev.volume, offset, buffer, BlockStart(offset, SECTOR),
             BlockEnd(offset + |buffer|, SECTOR));
  }
}
