/** How a transfer of up to 256 sectors is written into the command block registers, and how a drive reads
    it back from there. Source: kernel/cdi/ata/request.c (ata_request_command), kernel/cdi/ata/ata.c. */
module AtaRegisters {
  const LBA28 := 0x1000_0000   // sectors that 28 bits of address reach

  datatype Registers = Registers(device: nat, count: nat, low: nat, mid: nat, high: nat)

  /** The device register holds the LBA flag in bit 6, the drive in bit 4 and four address bits below;
      the fields do not overlap, so joining them is adding them. */
  function Encode(lba: nat, count: nat, id: nat): Registers {
    Registers(0x40 + 0x10 * id + Shift(lba, 3) % 0x10, count % 0x100,
              lba % 0x100, Shift(lba, 1) % 0x100, Shift(lba, 2) % 0x100)
  }

  /** `n` shifted right by so many bytes. */
  function Shift(n: nat, bytes: nat): nat {
    if bytes == 0 then n else Shift(n / 0x100, bytes - 1)
  }

  /** The address, sector count and drive that a drive in LBA mode takes from its registers; a count of
      0 stands for 256. */
  function LbaOf(r: Registers): nat {
    r.low + 0x100 * r.mid + 0x1_0000 * r.high + 0x100_0000 * (r.device % 0x10)
  }

  function CountOf(r: Registers): nat { if r.count == 0 then 0x100 else r.count }

  function DriveOf(r: Registers): nat { r.device / 0x10 % 2 }

  /** The drive takes the registers for a sector address, and not for cylinder, head and sector. */
  predicate LbaMode(r: Registers) { r.device / 0x40 % 2 == 1 }

  /** All registers hold bytes, and the bits of the device register without a meaning are clear. */
  predicate Clean(r: Registers) {
    && r.device < 0x80 && r.device / 0x20 % 2 == 0
    && r.count < 0x100 && r.low < 0x100 && r.mid < 0x100 && r.high < 0x100
  }

  lemma {:induction false} Digits(n: nat)
    ensures n % LBA28 == n % 0x100 + 0x100 * (Shift(n, 1) % 0x100) + 0x1_0000 * (Shift(n, 2) % 0x100)
                         + 0x100_0000 * (Shift(n, 3) % 0x10)
  {
    var n1 := n / 0x100;
    var n2 := n1 / 0x100;
    var n3 := n2 / 0x100;
    var top := n3 / 0x10;
    assert Shift(n, 1) == n1 && Shift(n, 2) == Shift(n1, 1) == n2 && Shift(n, 3) == Shift(n1, 2) == Shift(n2, 1) == n3;
    Rest(n, n % 0x100 + 0x100 * (n1 % 0x100) + 0x1_0000 * (n2 % 0x100) + 0x100_0000 * (n3 % 0x10), top);
  }

  lemma Rest(n: nat, low: nat, top: nat)
    requires n == low + LBA28 * top && low < LBA28
    ensures n % LBA28 == low
  {
  }

  /** A drive takes the registers for a sector address and decodes the count, the drive and the low 28 bits of the
      address: what was asked for exactly if the address is below 2^28. */
  lemma DecodeEncode(lba: nat, count: nat, id: nat)
    requires 1 <= count <= 0x100 && id < 2
    ensures var r := Encode(lba, count, id);
            && Clean(r) && LbaMode(r)
            && CountOf(r) == count && DriveOf(r) == id && LbaOf(r) == lba % LBA28
            && (LbaOf(r) == lba <==> lba < LBA28)
  {
    Digits(lba);
    var x := Shift(lba, 3) % 0x10;
    assert (0x40 + 0x10 * id + x) % 0x10 == x;
  }

  /** Only those registers say so. */
  lemma EncodeOnly(r: Registers, lba: nat, count: nat, id: nat)
    requires 1 <= count <= 0x100 && id < 2
    requires Clean(r) && LbaMode(r) && CountOf(r) == count && DriveOf(r) == id && LbaOf(r) == lba % LBA28
    ensures r == Encode(lba, count, id)
  {
    DecodeEncode(lba, count, id);
    SameDigits(r, Encode(lba, count, id));
  }

  lemma SameDigits(r: Registers, q: Registers)
    requires Clean(r) && Clean(q) && LbaOf(r) == LbaOf(q) && DriveOf(r) == DriveOf(q) && LbaMode(r) && LbaMode(q)
    ensures r.low == q.low && r.mid == q.mid && r.high == q.high && r.device == q.device
  {
    var a, b := r.mid + 0x100 * (r.high + 0x100 * (r.device % 0x10)), q.mid + 0x100 * (q.high + 0x100 * (q.device % 0x10));
    SameByte(r.low, a, q.low, b);
    SameByte(r.mid, r.high + 0x100 * (r.device % 0x10), q.mid, q.high + 0x100 * (q.device % 0x10));
    SameByte(r.high, r.device % 0x10, q.high, q.device % 0x10);
    DeviceIs(r.device);
    DeviceIs(q.device);
  }

  lemma SameByte(a: nat, x: nat, b: nat, y: nat)
    requires a < 0x100 && b < 0x100 && a + 0x100 * x == b + 0x100 * y
    ensures a == b && x == y
  {
  }

  lemma DeviceIs(d: nat)
    requires d < 0x80 && d / 0x20 % 2 == 0 && d / 0x40 % 2 == 1
    ensures d == 0x40 + 0x10 * (d / 0x10 % 2) + d % 0x10
  {
  }

  /** Sector 2^28 comes out as sector 0. */
  lemma WrapsAround()
    ensures LbaOf(Encode(LBA28, 1, 0)) == 0
  {
    DecodeEncode(LBA28, 1, 0);
  }

  // ---------- the chunks of a request ----------

  datatype Chunk = Chunk(lba: nat, count: nat)

  /** The transfers that ata_drv_rw_sectors makes of a request, in order. */
  function Chunks(start: nat, count: nat, max: nat): (r: seq<Chunk>)
    requires max > 0
    decreases count
  {
    if count == 0 then []
    else
      var n := if count > max then max else count;
      [Chunk(start, n)] + Chunks(start + n, count - n, max)
  }

  /** The sectors from `lba` on. */
  function Sectors(lba: nat, count: nat): (r: seq<nat>)
    ensures |r| == count
  {
    seq(count, k requires 0 <= k < count => lba + k)
  }

  function Touched(chunks: seq<Chunk>): (r: seq<nat>) {
    if chunks == [] then [] else Sectors(chunks[0].lba, chunks[0].count) + Touched(chunks[1..])
  }

  /** What the drive makes of each chunk once it has gone through the registers. */
  function Seen(chunks: seq<Chunk>, id: nat): (r: seq<Chunk>)
    ensures |r| == |chunks|
  {
    seq(|chunks|, k requires 0 <= k < |chunks| =>
      var r := Encode(chunks[k].lba, chunks[k].count, id); Chunk(LbaOf(r), CountOf(r)))
  }

  /** The chunks cover the request's sectors once each and in order, and each fits a count register. */
  lemma {:induction false} ChunksCover(start: nat, count: nat, max: nat)
    requires 0 < max <= 0x100
    ensures Touched(Chunks(start, count, max)) == Sectors(start, count)
    ensures forall c | c in Chunks(start, count, max) :: 1 <= c.count <= max
    decreases count
  {
    if count > 0 {
      var n := if count > max then max else count;
      ChunksCover(start + n, count - n, max);
      assert Chunks(start, count, max)[1..] == Chunks(start + n, count - n, max);
      assert Sectors(start, n) + Sectors(start + n, count - n) == Sectors(start, count);
    }
  }

  /** The first sector of the last chunk. */
  function LastChunk(start: nat, count: nat, max: nat): nat
    requires count > 0 && max > 0
    decreases count
  {
    if count > max then LastChunk(start + max, count - max, max) else start
  }

  lemma {:induction false} LastChunkAfter(start: nat, count: nat, max: nat)
    requires count > 0 && max > 0
    ensures start <= LastChunk(start, count, max) < start + count
    decreases count
  {
    if count > max { LastChunkAfter(start + max, count - max, max); }
  }

  /** The drive sees the chunks as they were meant exactly if the last one starts below 2^28; for a
      request that ends by then, it does. */
  lemma {:induction false} SeenAsMeant(start: nat, count: nat, max: nat, id: nat)
    requires 0 < max <= 0x100 && id < 2 && count > 0
    ensures Seen(Chunks(start, count, max), id) == Chunks(start, count, max) <==> LastChunk(start, count, max) < LBA28
    ensures start + count <= LBA28 ==> LastChunk(start, count, max) < LBA28
    decreases count
  {
    var n := if count > max then max else count;
    var all, rest := Chunks(start, count, max), Chunks(start + n, count - n, max);
    SeenFirst(start, n, rest, id);
    LastChunkAfter(start, count, max);
    if count > max {
      SeenAsMeant(start + n, count - n, max, id);
      LastChunkAfter(start + n, count - n, max);
    } else {
      assert Seen(rest, id) == rest;
    }
  }

  lemma SeenFirst(start: nat, n: nat, rest: seq<Chunk>, id: nat)
    requires 1 <= n <= 0x100 && id < 2
    ensures var all := [Chunk(start, n)] + rest;
            Seen(all, id) == all <==> start < LBA28 && Seen(rest, id) == rest
  {
    var all := [Chunk(start, n)] + rest;
    DecodeEncode(start, n, id);
    assert all[1..] == rest && Seen(all, id)[1..] == Seen(rest, id);
    assert Seen(all, id) == [Chunk(start % LBA28, n)] + Seen(rest, id);
    if Seen(all, id) == all { assert Seen(all, id)[0] == all[0]; }
  }
}
