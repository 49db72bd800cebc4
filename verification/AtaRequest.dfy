/** kernel/cdi/ata/request.c: a command written to a drive, and the PIO transfers that follow, against
    a drive that answers as it likes. */
module AtaRequest {
  import opened Common
  import opened Ranges
  import opened AtaRegisters

  const SECTOR := 512
  const BSY: bv8 := 0x80
  const DRQ: bv8 := 0x08

  // ---------- the drive ----------

  /** What the driver did at the drive's ports. */
  datatype Action = StatusRead(status: bv8) | IrqWait(fired: bool) | DataIn | DataOut

  type Sector = s: seq<byte> | |s| == SECTOR witness seq(SECTOR, _ => 0)

  /** A status that offers data: DRQ set, BSY clear. */
  predicate Ready(status: bv8) { status & DRQ == DRQ && status & BSY == 0 }

  /** The data port is used only right after a status read that showed DRQ set and BSY clear. */
  ghost predicate Safe(log: seq<Action>) {
    forall i | 0 <= i < |log| && (log[i].DataIn? || log[i].DataOut?) :: SafeAt(log, i)
  }

  ghost predicate SafeAt(log: seq<Action>, i: int) {
    0 < i < |log| && log[i - 1].StatusRead? && Ready(log[i - 1].status)
  }

  lemma SafeExtend(log: seq<Action>, a: Action)
    requires Safe(log)
    requires a.DataIn? || a.DataOut? ==> log != [] && log[|log| - 1].StatusRead? && Ready(log[|log| - 1].status)
    ensures Safe(log + [a])
  {
    var l := log + [a];
    forall i | 0 <= i < |l| && (l[i].DataIn? || l[i].DataOut?) ensures SafeAt(l, i) {
      if i < |log| { assert SafeAt(log, i); }
    }
  }

  /** A command as it was written to the registers. */
  datatype Command = Command(regs: Registers, write: bool)

  /** The transfer that the last command started: which sector is next and how many are left. */
  datatype Transfer = Idle | Reading(next: nat, left: nat) | Writing(next: nat, left: nat)

  predicate UnderWay(t: Transfer) { !t.Idle? && t.left > 0 }

  /** A drive. Status bytes and interrupts come as the drive likes, the status depending on time and on the transfer;
      `horizon` bounds how many of them a run goes through. Data moves a sector at a time, in order, as the command
      said; without a transfer under way the data port yields anything. */
  class Drive {
    const id: nat
    const answers: (nat, Transfer) -> bv8
    const irqs: nat -> bool
    const chs: Registers -> nat     // where cylinder, head and sector lead to
    const junk: nat -> Sector
    const horizon: nat
    var time: nat
    var sectors: seq<Sector>
    var regs: Registers
    var transfer: Transfer
    ghost var commands: seq<Command>    // the commands written to the registers, in order
    ghost var log: seq<Action>      // what the driver did at the ports
    ghost var moved: seq<Sector>    // the sectors that went through the data port, in order

    ghost predicate Valid()
      reads this
    {
      time <= horizon && Safe(log)
    }

    method Status() returns (s: bv8)
      requires Valid() && time < horizon
      modifies this`time, this`log
      ensures Valid() && time == old(time) + 1 && log == old(log) + [StatusRead(s)]
      ensures s == answers(old(time), transfer)
    {
      s := answers(time, transfer);
      SafeExtend(log, StatusRead(s));
      time, log := time + 1, log + [StatusRead(s)];
    }

    method AwaitIrq() returns (fired: bool)
      requires Valid() && time < horizon
      modifies this`time, this`log
      ensures Valid() && time == old(time) + 1 && log == old(log) + [IrqWait(fired)] && fired == irqs(old(time))
    {
      fired := irqs(time);
      SafeExtend(log, IrqWait(fired));
      time, log := time + 1, log + [IrqWait(fired)];
    }

    /** A write to the command register starts the transfer that the registers describe, on the drive
        that they select; from the sector at their address only if they say that it is one. */
    method Execute(r: Registers, write: bool)
      modifies this`regs, this`transfer, this`commands
      ensures regs == r && commands == old(commands) + [Command(r, write)]
      ensures DriveOf(r) == id && LbaMode(r) ==>
                transfer == if write then Writing(LbaOf(r), CountOf(r)) else Reading(LbaOf(r), CountOf(r))
    {
      regs, commands := r, commands + [Command(r, write)];
      if DriveOf(r) == id {
        var start := if LbaMode(r) then LbaOf(r) else chs(r);
        transfer := if write then Writing(start, CountOf(r)) else Reading(start, CountOf(r));
      }
    }

    /** One sector out of the data port. */
    method Input() returns (s: Sector)
      requires Valid() && Offering(log)
      modifies this`transfer, this`log, this`moved
      ensures Valid() && log == old(log) + [DataIn] && moved == old(moved) + [s]
      ensures transfer == After(old(transfer))
      ensures old(transfer).Reading? && Moves(old(transfer), |sectors|) ==> s == sectors[old(transfer).next]
    {
      s := junk(time);
      if transfer.Reading? && Moves(transfer, |sectors|) { s := sectors[transfer.next]; }
      SafeExtend(log, DataIn);
      transfer, log := After(transfer), log + [DataIn];
      moved := moved + [s];
    }

    /** One sector into the data port. */
    method Output(s: Sector)
      requires Valid() && Offering(log)
      modifies this`transfer, this`sectors, this`log, this`moved
      ensures Valid() && log == old(log) + [DataOut] && moved == old(moved) + [s]
      ensures transfer == After(old(transfer))
      ensures sectors == if old(transfer).Writing? && Moves(old(transfer), |old(sectors)|)
                         then old(sectors)[old(transfer).next := s] else old(sectors)
    {
      SafeExtend(log, DataOut);
      if transfer.Writing? && Moves(transfer, |sectors|) { sectors := sectors[transfer.next := s]; }
      transfer, log := After(transfer), log + [DataOut];
      moved := moved + [s];
    }
  }

  predicate Moves(t: Transfer, total: nat) {
    !t.Idle? && t.left > 0 && t.next < total
  }

  function After(t: Transfer): Transfer {
    if t.Idle? || t.left == 0 then t
    else if t.Reading? then Reading(t.next + 1, t.left - 1) else Writing(t.next + 1, t.left - 1)
  }

  // ---------- PIO transfers ----------

  /** How a protocol ends: all moved, given up, or still waiting when the run is cut off. */
  datatype Result = Success | Failed | Waiting

  datatype PioState = IRQ_WAIT | CHECK_STATUS | TRANSFER_DATA

  // ---------- the protocol, as it shows in the log ----------

  /** What follows an action: after an interrupt the status is read; a busy drive is asked again, one that offers data
      gets its transfer, and one that does neither has failed; after a transfer the next status or interrupt is due. */
  function StateAfter(poll: bool, a: Action): Option<PioState> {
    match a
    case IrqWait(fired) => if fired then Some(CHECK_STATUS) else None
    case StatusRead(status) =>
      if status & BSY == BSY then Some(CHECK_STATUS) else if status & DRQ == DRQ then Some(TRANSFER_DATA) else None
    case _ => Some(if poll then CHECK_STATUS else IRQ_WAIT)
  }

  function StateAt(poll: bool, start: PioState, log: seq<Action>, from: nat, i: nat): Option<PioState>
    requires i <= |log|
  {
    if i <= from then Some(start) else StateAfter(poll, log[i - 1])
  }

  predicate Does(state: PioState, write: bool, a: Action) {
    match state
    case IRQ_WAIT => a.IrqWait?
    case CHECK_STATUS => a.StatusRead?
    case TRANSFER_DATA => if write then a.DataOut? else a.DataIn?
  }

  /** From `from` on the log follows the protocol, which starts in `start`. */
  ghost predicate Follows(poll: bool, write: bool, start: PioState, log: seq<Action>, from: nat) {
    from <= |log| && forall i | from <= i < |log| :: InTurn(poll, write, start, log, from, i)
  }

  ghost predicate InTurn(poll: bool, write: bool, start: PioState, log: seq<Action>, from: nat, i: nat)
    requires i < |log|
  {
    var state := StateAt(poll, start, log, from, i);
    state.Some? && Does(state.value, write, log[i])
  }

  /** It does, and has come to this state, or to its end without success. */
  ghost predicate Tracks(poll: bool, write: bool, start: PioState, log: seq<Action>, from: nat, state: Option<PioState>) {
    Follows(poll, write, start, log, from) && StateAt(poll, start, log, from, |log|) == state
  }

  lemma FollowsNext(poll: bool, write: bool, start: PioState, log: seq<Action>, from: nat, a: Action, state: PioState)
    requires Tracks(poll, write, start, log, from, Some(state)) && Does(state, write, a)
    ensures Tracks(poll, write, start, log + [a], from, StateAfter(poll, a))
  {
    var l := log + [a];
    forall i | from <= i < |l| ensures InTurn(poll, write, start, l, from, i) {
      if i < |log| { assert InTurn(poll, write, start, log, from, i); }
    }
  }

  // ---------- a willing drive ----------

  const POLLS := 50   // status reads, 10 ms apart, within the timeout of ata_drv_wait_ready

  /** While a transfer is under way the drive is busy or offers data, and it is never busy for 50 status reads. */
  ghost predicate Willing(answers: (nat, Transfer) -> bv8) {
    && (forall t: nat, tr: Transfer | UnderWay(tr) :: Engaged(answers, t, tr))
    && (forall t: nat, tr: Transfer :: Patient(answers, t, tr))
  }

  predicate Engaged(answers: (nat, Transfer) -> bv8, t: nat, tr: Transfer) {
    answers(t, tr) & BSY == BSY || answers(t, tr) & DRQ == DRQ
  }

  ghost predicate Patient(answers: (nat, Transfer) -> bv8, t: nat, tr: Transfer) {
    exists u: nat | t <= u < t + POLLS :: IdleAt(answers, u, tr)
  }

  predicate IdleAt(answers: (nat, Transfer) -> bv8, t: nat, tr: Transfer) { answers(t, tr) & BSY == 0 }

  /** The drive was busy at all status reads from time `since` on. */
  ghost predicate BusySince(answers: (nat, Transfer) -> bv8, tr: Transfer, since: nat, t: nat) {
    since <= t && forall j: nat | since <= j < t :: !IdleAt(answers, j, tr)
  }

  lemma NotForLong(answers: (nat, Transfer) -> bv8, tr: Transfer, since: nat, t: nat)
    requires Willing(answers) && BusySince(answers, tr, since, t)
    ensures t < since + POLLS
  {
    assert Patient(answers, since, tr);
    var u: nat :| since <= u < since + POLLS && IdleAt(answers, u, tr);
  }

  /** The sectors joined to one byte string. */
  function Flat(s: seq<Sector>): (r: seq<byte>)
    ensures |r| == SECTOR * |s|
  {
    if s == [] then [] else Flat(s[..|s| - 1]) + s[|s| - 1]
  }

  /** Copy a sector into a buffer. */
  method Store(buf: array<byte>, at: nat, s: Sector)
    requires at + SECTOR <= buf.Length
    modifies buf
    ensures buf[..] == Overlay(old(buf[..]), at, s)
  {
    forall k | 0 <= k < SECTOR { buf[at + k] := s[k]; }
  }

  function Least1(n: nat): nat { if n == 0 then 1 else n }

  /** After `got` of a read of `count` sectors that was under way, the drive is `|got|` sectors further and
      `got` are its sectors, as far as it has them. */
  ghost predicate InStep(start: Transfer, now: Transfer, count: nat, sectors: seq<Sector>, got: seq<Sector>) {
    |got| <= count && start.Reading? && count <= start.left ==>
      && now == Reading(start.next + |got|, start.left - |got|)
      && Agrees(got, start.next, sectors)
  }

  lemma InStepNext(start: Transfer, now: Transfer, count: nat, sectors: seq<Sector>,
                   got: seq<Sector>, s: Sector)
    requires |got| < count && InStep(start, now, count, sectors, got)
    requires now.Reading? && Moves(now, |sectors|) ==> s == sectors[now.next]
    ensures InStep(start, After(now), count, sectors, got + [s])
  {
  }

  ghost predicate Offering(log: seq<Action>) {
    log != [] && log[|log| - 1].StatusRead? && Ready(log[|log| - 1].status)
  }

  ghost predicate Extends(before: seq<Sector>, after: seq<Sector>, got: seq<Sector>) {
    after == before + got
  }

  lemma ExtendsNext(before: seq<Sector>, after: seq<Sector>, got: seq<Sector>, s: Sector)
    requires Extends(before, after, got)
    ensures Extends(before, after + [s], got + [s])
  {
  }

  /** State TRANSFER_DATA of ata_protocol_pio_in: one sector goes behind those already there. */
  method TakeSector(d: Drive, buf: array<byte>, at: nat, ghost base: nat, ghost got: seq<Sector>, ghost was: seq<byte>,
                    ghost start: Transfer, ghost moved: seq<Sector>, ghost count: nat, poll: bool, ghost from: nat)
    returns (next: PioState, ghost all: seq<Sector>)
    requires d.Valid() && Offering(d.log) && |got| < count && at == base + SECTOR * |got|
    requires base + SECTOR * count <= buf.Length == |was| && buf[..] == Overlay(was, base, Flat(got))
    requires InStep(start, d.transfer, count, d.sectors, got) && Extends(moved, d.moved, got)
    requires Tracks(poll, false, InStart(poll), d.log, from, Some(TRANSFER_DATA))
    modifies d`log, d`transfer, d`moved, buf
    ensures d.Valid() && |all| == |got| + 1 && buf[..] == Overlay(was, base, Flat(all))
    ensures Followed(poll, false, InStart(poll), old(d.log), d.log, from, Some(next)) && next == InStart(poll)
    ensures InStep(start, d.transfer, count, d.sectors, all) && Extends(moved, d.moved, all)
  {
    ghost var before, moved0, log := d.transfer, d.moved, d.log;
    var s := d.Input();
    FollowsNext(poll, false, InStart(poll), log, from, DataIn, TRANSFER_DATA);
    Store(buf, at, s);
    FlatAppend(was, base, got, s);
    ExtendsNext(moved, moved0, got, s);
    InStepNext(start, before, count, d.sectors, got, s);
    all := got + [s];
    next := if poll then CHECK_STATUS else IRQ_WAIT;
  }

  /** State IRQ_WAIT of both protocols. */
  method WaitIrq(d: Drive, poll: bool, ghost write: bool, ghost start: PioState, ghost from: nat)
    returns (next: Option<PioState>)
    requires d.Valid() && d.time < d.horizon && Tracks(poll, write, start, d.log, from, Some(IRQ_WAIT))
    modifies d`time, d`log
    ensures d.Valid() && d.time == old(d.time) + 1 && Followed(poll, write, start, old(d.log), d.log, from, next)
    ensures d.log[|d.log| - 1].IrqWait?
  {
    ghost var log := d.log;
    var fired := d.AwaitIrq();
    FollowsNext(poll, write, start, log, from, IrqWait(fired), IRQ_WAIT);
    next := if fired then Some(CHECK_STATUS) else None;
  }

  /** State CHECK_STATUS of both protocols. */
  method CheckStatus(d: Drive, poll: bool, ghost write: bool, ghost start: PioState, ghost from: nat, ghost good: bool,
                     ghost t0: nat, ghost since: nat, ghost done: nat)
    returns (next: Option<PioState>)
    requires d.Valid() && d.time < d.horizon && Tracks(poll, write, start, d.log, from, Some(CHECK_STATUS))
    requires good ==> Willing(d.answers) && Pace(d.answers, d.transfer, CHECK_STATUS, t0, since, d.time, done)
    modifies d`time, d`log
    ensures d.Valid() && d.time == old(d.time) + 1 && Followed(poll, write, start, old(d.log), d.log, from, next)
    ensures d.log[|d.log| - 1].StatusRead? && (next == Some(TRANSFER_DATA) ==> Offering(d.log))
    ensures good ==> next.Some? && Pace(d.answers, d.transfer, next.value, t0, since, d.time, done)
  {
    ghost var log := d.log;
    var status := d.Status();
    FollowsNext(poll, write, start, log, from, StatusRead(status), CHECK_STATUS);
    StatusBits(status);
    if status & (BSY | DRQ) == 0 {
      next := None;
    } else if status & BSY == BSY {
      next := Some(CHECK_STATUS);
    } else if status & (BSY | DRQ) == DRQ {
      next := Some(TRANSFER_DATA);
    } else {
      next := Some(CHECK_STATUS);
    }
    if good { PaceChecked(d.answers, d.transfer, t0, since, d.time, done, next); }
  }

  /** One more action, after which the protocol is in state `next`. */
  ghost predicate Followed(poll: bool, write: bool, start: PioState, before: seq<Action>, log: seq<Action>, from: nat,
                           next: Option<PioState>)
  {
    |log| == |before| + 1 && before <= log && Tracks(poll, write, start, log, from, next)
  }

  lemma StatusBits(status: bv8)
    ensures status & (BSY | DRQ) == 0 <==> status & BSY != BSY && status & DRQ != DRQ
    ensures status & (BSY | DRQ) == DRQ <==> status & BSY != BSY && status & DRQ == DRQ
    ensures status & BSY == 0 <==> status & BSY != BSY
  {
  }

  /** The last action has ended the protocol without success. */
  ghost predicate Broken(poll: bool, log: seq<Action>, from: nat) {
    |log| > from && StateAfter(poll, log[|log| - 1]) == None
  }

  /** A willing drive with a transfer of so many sectors under way. */
  ghost predicate Promising(answers: (nat, Transfer) -> bv8, poll: bool, tr: Transfer, count: nat) {
    poll && Willing(answers) && !tr.Idle? && count <= tr.left
  }

  /** A transfer of `count` sectors to or from place `base` of a buffer, and what it started from. */
  datatype Pio = Pio(poll: bool, count: nat, base: nat, bytes: seq<byte>, transfer: Transfer, sectors: seq<Sector>,
                     moved: seq<Sector>, log: seq<Action>, time: nat)

  /** A read under way: `got` has been read, the last of it at time `since`. */
  ghost predicate InLoop(d: Drive, bytes: seq<byte>, job: Pio, state: PioState, got: seq<Sector>, since: nat)
    reads d
  {
    && d.Valid() && |got| < job.count && Extends(job.moved, d.moved, got)
    && bytes == Overlay(job.bytes, job.base, Flat(got))
    && (state.TRANSFER_DATA? ==> Offering(d.log))
    && InStep(job.transfer, d.transfer, job.count, d.sectors, got)
    && job.log <= d.log && Tracks(job.poll, false, InStart(job.poll), d.log, |job.log|, Some(state))
    && (InGood(d, job) ==> Pace(d.answers, d.transfer, state, job.time, since, d.time, |got|))
  }

  ghost predicate InGood(d: Drive, job: Pio) {
    job.transfer.Reading? && Promising(d.answers, job.poll, job.transfer, job.count)
  }

  /** How it ends. */
  ghost predicate InEnd(d: Drive, bytes: seq<byte>, job: Pio, r: Result, got: seq<Sector>)
    reads d
  {
    && d.Valid() && |got| <= job.count && Extends(job.moved, d.moved, got)
    && bytes == Overlay(job.bytes, job.base, Flat(got))
    && (r.Success? <==> |got| == job.count)
    && InStep(job.transfer, d.transfer, job.count, d.sectors, got)
    && job.log <= d.log && Follows(job.poll, false, InStart(job.poll), d.log, |job.log|)
    && (r.Failed? <==> Broken(job.poll, d.log, |job.log|))
    && (r.Waiting? ==> d.time == d.horizon)
    && (InGood(d, job) ==> !r.Failed? && d.time <= job.time + POLLS * |got| + if r.Success? then 0 else POLLS - 1)
  }

  /** One round of ata_protocol_pio_in. */
  method InRound(d: Drive, poll: bool, count: nat, buf: array<byte>, base: nat, state: PioState, done: nat, ghost job: Pio,
                 ghost got: seq<Sector>, ghost since: nat)
    returns (r: Option<Result>, next: PioState, taken: nat, ghost all: seq<Sector>, ghost now: nat)
    requires InLoop(d, buf[..], job, state, got, since) && done == |got|
    requires job.poll == poll && job.count == Least1(count) && job.base == base
    requires base + SECTOR * job.count <= buf.Length == |job.bytes|
    modifies d`time, d`log, d`transfer, d`moved, buf
    ensures r == None ==> InLoop(d, buf[..], job, next, all, now)
    ensures r.Some? ==> InEnd(d, buf[..], job, r.value, all)
    ensures taken == |all| == if state.TRANSFER_DATA? then done + 1 else done
    ensures r == None ==> d.time == if state.TRANSFER_DATA? then old(d.time) else old(d.time) + 1
  {
    r, next, taken, all, now := None, state, done, got, since;
    match state {
      case IRQ_WAIT =>
        if d.time == d.horizon { r := Some(Waiting); return; }
        var n := WaitIrq(d, poll, false, InStart(poll), |job.log|);
        if n == None { r := Some(Failed); return; }
        next := n.value;
      case CHECK_STATUS =>
        if d.time == d.horizon {
          if InGood(d, job) { NotForLong(d.answers, d.transfer, since, d.time); }
          r := Some(Waiting);
          return;
        }
        var n := CheckStatus(d, poll, false, InStart(poll), |job.log|, InGood(d, job), job.time, since, done);
        if n == None { r := Some(Failed); return; }
        next := n.value;
      case TRANSFER_DATA =>
        next, all := TakeSector(d, buf, base + done * SECTOR, base, got, job.bytes, job.transfer, job.moved, job.count, poll,
                                |job.log|);
        taken, now := done + 1, d.time;
        if taken >= count { r := Some(Success); }
    }
  }

  /** ata_protocol_pio_in for a device without packets. Whatever the drive answers, the data port is
      read only when it was offered; success means that the sectors read went to the buffer one after
      the other, as many as asked for and at least one; and when the drive has such a transfer under
      way, they are its sectors. The log follows the protocol: it fails exactly if the drive breaks it off, and only
      waits on when the run is cut off; a willing drive is read within 50 status reads a sector. */
  method PioIn(d: Drive, poll: bool, count: nat, buf: array<byte>, base: nat) returns (r: Result,
               ghost got: seq<Sector>)
    requires d.Valid() && base + SECTOR * Least1(count) <= buf.Length
    modifies d`time, d`log, d`transfer, d`moved, buf
    ensures InEnd(d, buf[..], Pio(poll, Least1(count), base, old(buf[..]), old(d.transfer), old(d.sectors), old(d.moved),
                                  old(d.log), old(d.time)), r, got)
  {
    var state, done, result := if poll then CHECK_STATUS else IRQ_WAIT, 0, None;
    ghost var job := Pio(poll, Least1(count), base, buf[..], d.transfer, d.sectors, d.moved, d.log, d.time);
    ghost var since := d.time;
    got := [];
    OverlayNone(buf[..], base);
    while result == None
      invariant result == None ==> InLoop(d, buf[..], job, state, got, since) && done == |got|
      invariant result.Some? ==> InEnd(d, buf[..], job, result.value, got)
      decreases result == None, d.horizon - d.time, job.count - |got|
    {
      result, state, done, got, since := InRound(d, poll, count, buf, base, state, done, job, got, since);
    }
    r := result.value;
  }

  function InStart(poll: bool): PioState { if poll then CHECK_STATUS else IRQ_WAIT }

  /** How far a transfer from a willing drive has come in time: `since` is when the last sector was moved. */
  ghost predicate Pace(answers: (nat, Transfer) -> bv8, tr: Transfer, state: PioState, t0: nat, since: nat, t: nat, done: nat) {
    && UnderWay(tr) && !state.IRQ_WAIT? && t0 <= since <= t && since <= t0 + POLLS * done
    && (state.CHECK_STATUS? ==> BusySince(answers, tr, since, t))
    && (state.TRANSFER_DATA? ==> t <= since + POLLS)
  }

  /** One status read more. */
  lemma PaceChecked(answers: (nat, Transfer) -> bv8, tr: Transfer, t0: nat, since: nat, t: nat, done: nat,
                    next: Option<PioState>)
    requires Willing(answers) && t > 0 && Pace(answers, tr, CHECK_STATUS, t0, since, t - 1, done)
    requires next == StateAfter(true, StatusRead(answers(t - 1, tr)))
    ensures next.Some? && Pace(answers, tr, next.value, t0, since, t, done)
  {
    assert Engaged(answers, t - 1, tr);
    StatusBits(answers(t - 1, tr));
    NotForLong(answers, tr, since, t - 1);
  }

  lemma {:induction false} FlatAppend(b: seq<byte>, base: nat, got: seq<Sector>, s: Sector)
    requires base + SECTOR * (|got| + 1) <= |b|
    ensures Overlay(Overlay(b, base, Flat(got)), base + SECTOR * |got|, s) == Overlay(b, base, Flat(got + [s]))
  {
    assert (got + [s])[..|got|] == got;
    OverlayJoin(b, base, Flat(got), s);
  }

  /** The `k`-th sector in a buffer from `base` on. */
  function Piece(b: seq<byte>, base: nat, k: nat): (r: Sector)
    requires base + SECTOR * (k + 1) <= |b|
  {
    b[base + SECTOR * k..base + SECTOR * (k + 1)]
  }

  function Pieces(b: seq<byte>, base: nat, count: nat): (r: seq<Sector>)
    requires base + SECTOR * count <= |b|
    ensures |r| == count
  {
    if count == 0 then [] else Pieces(b, base, count - 1) + [Piece(b, base, count - 1)]
  }

  /** With `put` of a write of `count` sectors that was under way: they are in their places, as far as the drive
      has them, and no other sector has changed. */
  ghost predicate OutStep(start: Transfer, now: Transfer, count: nat, before: seq<Sector>, sectors: seq<Sector>,
                          put: seq<Sector>) {
    && |sectors| == |before|
    && (|put| <= count && start.Writing? && count <= start.left ==>
          && now == Writing(start.next + |put|, start.left - |put|)
          && sectors == Overlay(before, start.next, put))
  }

  lemma OutStepNext(start: Transfer, now: Transfer, count: nat, before: seq<Sector>,
                    sectors: seq<Sector>,
                    put: seq<Sector>, s: Sector)
    requires |put| < count && OutStep(start, now, count, before, sectors, put)
    ensures var after := if now.Writing? && Moves(now, |sectors|) then sectors[now.next := s] else sectors;
            OutStep(start, After(now), count, before, after, put + [s])
  {
  }

  /** State TRANSFER_DATA of ata_protocol_pio_out: the next sector of the buffer goes out. */
  method PutSector(d: Drive, buf: array<byte>, base: nat, blocks: nat, ghost b: seq<byte>, ghost count: nat,
                   ghost start: Transfer, ghost before: seq<Sector>, ghost moved: seq<Sector>, poll: bool, ghost from: nat)
    returns (next: PioState)
    requires d.Valid() && Offering(d.log) && blocks < count && base + SECTOR * count <= buf.Length && b == buf[..]
    requires OutStep(start, d.transfer, count, before, d.sectors, Pieces(b, base, blocks))
    requires Extends(moved, d.moved, Pieces(b, base, blocks))
    requires Tracks(poll, true, CHECK_STATUS, d.log, from, Some(TRANSFER_DATA))
    modifies d`log, d`transfer, d`moved, d`sectors
    ensures d.Valid() && Followed(poll, true, CHECK_STATUS, old(d.log), d.log, from, Some(next))
    ensures next == InStart(poll) && !d.log[|d.log| - 1].StatusRead?
    ensures OutStep(start, d.transfer, count, before, d.sectors, Pieces(b, base, blocks + 1))
    ensures Extends(moved, d.moved, Pieces(b, base, blocks + 1))
  {
    var s := buf[base + blocks * SECTOR..base + (blocks + 1) * SECTOR];
    ghost var put := Pieces(b, base, blocks);
    assert s == Piece(b, base, blocks);
    OutStepNext(start, d.transfer, count, before, d.sectors, put, s);
    ExtendsNext(moved, d.moved, put, s);
    FollowsNext(poll, true, CHECK_STATUS, d.log, from, DataOut, TRANSFER_DATA);
    d.Output(s);
    next := if poll then CHECK_STATUS else IRQ_WAIT;
  }

  /** A write under way: `blocks` sectors have gone out, the last of them at time `since`. */
  ghost predicate OutLoop(d: Drive, job: Pio, state: PioState, blocks: nat, since: nat)
    requires job.base + SECTOR * job.count <= |job.bytes|
    reads d
  {
    && d.Valid() && blocks <= job.count && (state.TRANSFER_DATA? ==> blocks < job.count && Offering(d.log))
    && Extends(job.moved, d.moved, Pieces(job.bytes, job.base, blocks))
    && OutStep(job.transfer, d.transfer, job.count, job.sectors, d.sectors, Pieces(job.bytes, job.base, blocks))
    && job.log <= d.log && Tracks(job.poll, true, CHECK_STATUS, d.log, |job.log|, Some(state))
    && (blocks == job.count && |d.log| > |job.log| ==> !d.log[|d.log| - 1].StatusRead?)
    && (OutGood(d, job) ==> OutPace(d.answers, d.transfer, state, job.time, since, d.time, blocks, job.count))
  }

  ghost predicate OutGood(d: Drive, job: Pio) {
    job.transfer.Writing? && Promising(d.answers, job.poll, job.transfer, job.count)
  }

  /** How it ends. */
  ghost predicate OutEnd(d: Drive, job: Pio, r: Result, done: nat)
    requires job.base + SECTOR * job.count <= |job.bytes|
    reads d
  {
    && d.Valid() && done <= job.count && Extends(job.moved, d.moved, Pieces(job.bytes, job.base, done))
    && OutStep(job.transfer, d.transfer, job.count, job.sectors, d.sectors, Pieces(job.bytes, job.base, done))
    && job.log <= d.log && Follows(job.poll, true, CHECK_STATUS, d.log, |job.log|)
    && (r.Success? <==> done == job.count && |d.log| > |job.log| && d.log[|d.log| - 1].StatusRead?)
    && (r.Failed? <==> !r.Success? && Broken(job.poll, d.log, |job.log|))
    && (r.Waiting? ==> d.time == d.horizon)
    && (OutGood(d, job) ==>
          !r.Failed? && d.time <= job.time + POLLS * done + if r.Success? then 1 else if done == job.count then 0 else POLLS - 1)
  }

  /** One round of ata_protocol_pio_out. */
  method OutRound(d: Drive, poll: bool, count: nat, buf: array<byte>, base: nat, state: PioState, blocks: nat,
                  ghost job: Pio, ghost since: nat)
    returns (r: Option<Result>, next: PioState, done: nat, ghost now: nat)
    requires job.poll == poll && job.count == count && job.base == base && job.bytes == buf[..]
    requires base + SECTOR * count <= buf.Length && OutLoop(d, job, state, blocks, since)
    modifies d`time, d`log, d`transfer, d`moved, d`sectors
    ensures r == None ==> OutLoop(d, job, next, done, now)
    ensures r.Some? ==> OutEnd(d, job, r.value, done)
    ensures done == (if state.TRANSFER_DATA? then blocks + 1 else blocks)
    ensures r == None ==> d.time == if state.TRANSFER_DATA? then old(d.time) else old(d.time) + 1
  {
    r, next, done, now := None, state, blocks, since;
    match state {
      case IRQ_WAIT =>
        if d.time == d.horizon { r := Some(Waiting); return; }
        var n := WaitIrq(d, poll, true, CHECK_STATUS, |job.log|);
        if n == None { r := Some(Failed); return; }
        next := n.value;
      case CHECK_STATUS =>
        ghost var good := OutGood(d, job) && blocks < count;
        if d.time == d.horizon {
          if good { NotForLong(d.answers, d.transfer, since, d.time); }
          r := Some(Waiting);
          return;
        }
        var n := CheckStatus(d, poll, true, CHECK_STATUS, |job.log|, good, job.time, since, blocks);
        if blocks == count { r := Some(Success); return; }
        if n == None { r := Some(Failed); return; }
        next := n.value;
      case TRANSFER_DATA =>
        next := PutSector(d, buf, base, blocks, job.bytes, count, job.transfer, job.sectors, job.moved, poll, |job.log|);
        done, now := blocks + 1, d.time;
    }
  }

  /** ata_protocol_pio_out for a device without packets: the same for writing, but the sector count is
      compared, after one more status read, before anything is moved, so that success means exactly `count` sectors. */
  method PioOut(d: Drive, poll: bool, count: nat, buf: array<byte>, base: nat) returns (r: Result, ghost done: nat)
    requires d.Valid() && base + SECTOR * count <= buf.Length
    modifies d`time, d`log, d`transfer, d`moved, d`sectors
    ensures OutEnd(d, Pio(poll, count, base, buf[..], old(d.transfer), old(d.sectors), old(d.moved), old(d.log), old(d.time)),
                   r, done)
  {
    var state, blocks: nat, result := CHECK_STATUS, 0, None;
    ghost var job := Pio(poll, count, base, buf[..], d.transfer, d.sectors, d.moved, d.log, d.time);
    ghost var since := d.time;
    while result == None
      invariant job.bytes == buf[..] && blocks <= count
      invariant result == None ==> OutLoop(d, job, state, blocks, since)
      invariant result.Some? ==> OutEnd(d, job, result.value, blocks)
      decreases result == None, d.horizon - d.time, count - blocks
    {
      result, state, blocks, since := OutRound(d, poll, count, buf, base, state, blocks, job, since);
    }
    r, done := result.value, blocks;
  }

  /** The same, until all sectors have been moved; then one status read is left. */
  ghost predicate OutPace(answers: (nat, Transfer) -> bv8, tr: Transfer, state: PioState, t0: nat, since: nat, t: nat,
                          done: nat, count: nat)
  {
    if done < count then Pace(answers, tr, state, t0, since, t, done)
    else state.CHECK_STATUS? && t0 <= since == t <= t0 + POLLS * count
  }

  // ---------- commands ----------

  const READY_TIMEOUT := 500

  /** The first `k` actions behind the first `from` are status reads that showed BSY. */
  ghost predicate BusyFor(log: seq<Action>, from: nat, k: int) {
    from + k <= |log| && forall i | from <= i < from + k :: BusyAt(log[i])
  }

  predicate BusyAt(a: Action) { a.StatusRead? && a.status & BSY == BSY }

  lemma BusyMore(log: seq<Action>, log': seq<Action>, from: nat, k: nat)
    requires BusyFor(log, from, k) && log <= log'
    ensures BusyFor(log', from, k)
    ensures |log'| > from + k && BusyAt(log'[from + k]) ==> BusyFor(log', from, k + 1)
  {
  }

  /** ata_drv_wait_ready without further bits: poll until the drive is not busy, 10 ms apart. It succeeds exactly if
      one of the first 50 polls finds the drive not busy; one more status read follows. */
  method WaitReady(d: Drive) returns (r: Result)
    requires d.Valid()
    modifies d`time, d`log
    ensures d.Valid() && old(d.log) <= d.log
    ensures r.Success? ==> var k := |d.log| - |old(d.log)| - 2;
                           && 0 <= k < POLLS && BusyFor(d.log, |old(d.log)|, k)
                           && d.log[|d.log| - 2].StatusRead? && !BusyAt(d.log[|d.log| - 2])
    ensures r.Failed? ==> |d.log| == |old(d.log)| + POLLS + 2 && BusyFor(d.log, |old(d.log)|, POLLS)
    ensures r.Waiting? ==> d.time == d.horizon
    ensures Willing(d.answers) ==> !r.Failed? && d.time <= old(d.time) + POLLS + if r.Success? then 1 else 0
  {
    ghost var from, k, since := |d.log|, 0, d.time;
    var waited, busy := 0, true;
    while busy
      invariant d.Valid() && old(d.log) <= d.log && from == |old(d.log)|
      invariant k <= POLLS && waited == 10 * k && BusyFor(d.log, from, k)
      invariant |d.log| == from + k + if busy then 0 else 1
      invariant d.time == since + k + (if busy then 0 else 1) && BusySince(d.answers, d.transfer, since, since + k)
      invariant !busy ==> d.log[|d.log| - 1].StatusRead?
                          && (waited < READY_TIMEOUT ==> !BusyAt(d.log[|d.log| - 1]))
      decreases d.horizon - d.time, busy
    {
      if Willing(d.answers) { NotForLong(d.answers, d.transfer, since, since + k); }
      if d.time == d.horizon { return Waiting; }
      ghost var before := d.log;
      busy := IsBusy(d);
      BusyMore(before, d.log, from, k);
      busy := busy && waited < READY_TIMEOUT;
      if busy { waited, k := waited + 10, k + 1; }
    }
    if Willing(d.answers) { NotForLong(d.answers, d.transfer, since, since + k); }
    if d.time == d.horizon { return Waiting; }
    ghost var before := d.log;
    busy := IsBusy(d);
    BusyMore(before, d.log, from, k);
    return if waited < READY_TIMEOUT then Success else Failed;
  }

  /** One poll. */
  method IsBusy(d: Drive) returns (busy: bool)
    requires d.Valid() && d.time < d.horizon
    modifies d`time, d`log
    ensures d.Valid() && d.time == old(d.time) + 1 && |d.log| == |old(d.log)| + 1 && old(d.log) <= d.log
    ensures d.log[|d.log| - 1].StatusRead? && (busy <==> BusyAt(d.log[|d.log| - 1]))
    ensures busy <==> !IdleAt(d.answers, old(d.time), d.transfer)
  {
    var status := d.Status();
    NotBusy(status);
    busy := status & BSY != 0;
  }

  lemma NotBusy(status: bv8)
    ensures status & BSY == 0 || status & BSY == BSY
  {
  }

  /** The command a request writes, unless the wait before it fails; then nothing is moved. */
  ghost predicate Commanded(before: seq<Command>, after: seq<Command>, c: Command, moved: nat) {
    after == before + [c] || (after == before && moved == 0)
  }

  /** Why a request may fail, as the log shows: the drive was busy at 50 polls before the command, or broke the
      transfer off. */
  ghost predicate GaveUp(log: seq<Action>) {
    log != [] && (TimedOut(log) || StateAfter(true, log[|log| - 1]) == None)
  }

  ghost predicate TimedOut(log: seq<Action>) {
    |log| >= POLLS + 2 && BusyFor(log, |log| - POLLS - 2, POLLS)
  }

  /** How a request ends that takes up to `polls` status reads from a willing drive. */
  ghost predicate Ends(r: Result, d: Drive, start: nat, poll: bool, polls: nat)
    reads d
  {
    && (r.Failed? ==> GaveUp(d.log))
    && (r.Waiting? ==> d.time == d.horizon)
    && (poll && Willing(d.answers) ==> !r.Failed?)
    && (poll && Willing(d.answers) && start + polls <= d.horizon ==> r.Success? && d.time <= start + polls)
  }

  /** ata_request with protocol PIO, reading: wait until the drive is ready, write the registers, read
      the sectors. The drive reads where it was told to, modulo 2^28. */
  method RequestRead(d: Drive, poll: bool, lba: nat, count: nat, buf: array<byte>, base: nat)
    returns (r: Result, ghost got: seq<Sector>)
    requires d.Valid() && d.id < 2 && 1 <= count <= 0x100 && base + SECTOR * count <= buf.Length
    modifies d`time, d`log, d`transfer, d`moved, d`regs, d`commands, buf
    ensures d.Valid() && |got| <= count && (r.Success? <==> |got| == count)
    ensures Commanded(old(d.commands), d.commands, Command(Encode(lba, count, d.id), false), |got|)
    ensures Extends(old(d.moved), d.moved, got)
    ensures buf[..] == Overlay(old(buf[..]), base, Flat(got))
    ensures Agrees(got, lba % LBA28, d.sectors)
    ensures Ends(r, d, old(d.time), poll, POLLS * count + POLLS + 1)
  {
    got := [];
    OverlayNone(buf[..], base);
    r := WaitReady(d);
    if !r.Success? { return; }
    DecodeEncode(lba, count, d.id);
    d.Execute(Encode(lba, count, d.id), false);
    r, got := PioIn(d, poll, count, buf, base);
  }

  /** ata_request with protocol PIO, writing. */
  method RequestWrite(d: Drive, poll: bool, lba: nat, count: nat, buf: array<byte>, base: nat)
    returns (r: Result, ghost done: nat)
    requires d.Valid() && d.id < 2 && 1 <= count <= 0x100 && base + SECTOR * count <= buf.Length
    modifies d`time, d`log, d`transfer, d`moved, d`regs, d`commands, d`sectors
    ensures d.Valid() && done <= count && (r.Success? ==> done == count)
    ensures Commanded(old(d.commands), d.commands, Command(Encode(lba, count, d.id), true), done)
    ensures Extends(old(d.moved), d.moved, Pieces(buf[..], base, done))
    ensures |d.sectors| == |old(d.sectors)|
    ensures d.sectors == Overlay(old(d.sectors), lba % LBA28, Pieces(buf[..], base, done))
    ensures Ends(r, d, old(d.time), poll, POLLS * count + POLLS + 2)
  {
    done := 0;
    OverlayNone(d.sectors, lba % LBA28);
    r := WaitReady(d);
    if !r.Success? { return; }
    DecodeEncode(lba, count, d.id);
    d.Execute(Encode(lba, count, d.id), true);
    r, done := PioOut(d, poll, count, buf, base);
  }
}
