/** Histories: what single processes see over whole runs. */
module ProcessHistory {
  import opened Common
  import opened ProcessModel
  import opened ProcessInvariant
  import opened ProcessSteps
  import opened ProcessDeath
  import opened ProcessTimer
  import opened ProcessRuns

  // ---------- what a step leaves alone in a live process ----------

  /** Message queue, identity and exit status stay; a sleeper stays asleep until its tick. */
  predicate Kept(p: Proc, p': Proc) {
    && p'.pid == p.pid && p'.mailbox == p.mailbox && p'.received == p.received && p'.exitStatus == p.exitStatus
    && (BlockedFor(p, Sleeping) ==> BlockedFor(p', Sleeping) && p'.wakeup == p.wakeup)
  }

  lemma KeptCreate(s: State, status: Status, i: Slot)
    requires s.procs[i].status != Free && Create(s, status).Some?
    ensures Kept(s.procs[i], Create(s, status).value.procs[i])
  {
  }

  lemma KeptFork(s: State, i: Slot)
    requires s.procs[i].status != Free
    ensures Kept(s.procs[i], Fork(s).procs[i])
  {
  }

  lemma KeptSchedule(s: State, i: Slot)
    requires Inv(s)
    ensures Kept(s.procs[i], Schedule(s).procs[i])
  {
    ScheduleQueue(s);
    assert Similar(s.procs[i], Schedule(s).procs[i]);
  }

  lemma KeptLeave(s: State, rec: Proc, i: Slot)
    requires QueueInv(s) && s.cur != IDLE && rec.status == Blocked
    requires var p := s.procs[s.cur];
             && rec.pid == p.pid && rec.mailbox == p.mailbox && rec.received == p.received
             && rec.exitStatus == p.exitStatus
    ensures var r := Deactivate(s.(procs := s.procs[s.cur := rec]), s.cur); r.Some? && Kept(s.procs[i], r.value.procs[i])
  {
    LeaveQueue(s, rec, rec);
    var s' := Deactivate(s.(procs := s.procs[s.cur := rec]), s.cur).value;
    assert i != s.cur ==> Similar(s.procs[i], s'.procs[i]);
  }

  lemma KeptWait(s: State, pid: nat, i: Slot)
    requires Inv(s) && s.cur != IDLE && Wait(s, pid).Some?
    ensures Kept(s.procs[i], Wait(s, pid).value.procs[i])
  {
    var o, c := Find(s.procs, pid).value, s.cur;
    if s.procs[o].status != Free && s.procs[o].waitProc == 0 {
      var s1 := s.(procs := s.procs[o := s.procs[o].(waitProc := s.procs[c].pid)]);
      RewriteRecord(s, o, s1.procs[o]);
      var s2 := s1.(procs := s1.procs[c := s1.procs[c].(waitFor := pid, eax := 0)]);
      var rec := s2.procs[c].(status := Blocked, block := WaitProc);
      assert s2.procs[c := rec] == s1.procs[c := rec];
      KeptLeave(s1, rec, i);
    }
  }

  lemma KeptDeath(s: State, i: Slot)
    requires Inv(s) && s.cur != IDLE && s.procs[i].status != Free && i != s.cur
    ensures DeathTable(s.procs, s.cur)[i].status != Free
    ensures Kept(s.procs[i], DeathTable(s.procs, s.cur)[i])
  {
    if s.procs[s.cur].waitProc != 0 { var w := WaiterFound(s, s.cur); }
  }

  lemma KeptDestroy(s: State, i: Slot)
    requires Inv(s) && s.cur != IDLE && s.procs[i].status != Free && i != s.cur && Destroy(s, s.cur).Some?
    ensures Kept(s.procs[i], Destroy(s, s.cur).value.procs[i])
  {
    KeptDeath(s, i);
    DestroyEffect(s, s.cur);
    assert Similar(DeathTable(s.procs, s.cur)[i], Destroy(s, s.cur).value.procs[i]);
  }

  lemma KeptExit(s: State, status: int, i: Slot)
    requires Inv(s) && s.cur != IDLE && s.procs[i].status != Free && i != s.cur && Exit(s, status).Some?
    ensures Kept(s.procs[i], Exit(s, status).value.procs[i])
  {
    ExitInv(s, status);
    ExitingInv(s, status);
    KeptDeath(Exiting(s, status), i);
    ExitEffect(s, status);
    assert Similar(DeathTable(Exiting(s, status).procs, s.cur)[i], Exit(s, status).value.procs[i]);
  }

  /** Steps other than a tick, a send or a receive. */
  lemma StepKeeps(s: State, op: Op, i: Slot)
    requires Inv(s) && Enabled(s, op) && Step(s, op).Some? && s.procs[i].status != Free
    requires !op.TickOp? && !op.SendOp? && !op.ReceiveOp?
    ensures Step(s, op).value.procs[i].status != Free ==> Kept(s.procs[i], Step(s, op).value.procs[i])
  {
    assert SlotInv(s, s.cur);
    match op
    case CreateOp(ready) => KeptCreate(s, if ready then Ready else Blocked, i);
    case ForkOp => KeptFork(s, i);
    case YieldOp => KeptSchedule(s, i);
    case SleepOp(msec) => KeptLeave(s, s.procs[s.cur].(status := Blocked, block := Sleeping), i);
    case BlockFsOp => KeptLeave(s, s.procs[s.cur].(status := Blocked, block := WaitFs), i);
    case UnblockOp(p) =>
    case WaitOp(pid) => KeptWait(s, pid, i);
    case ExitOp(status) => if i != s.cur { KeptExit(s, status, i); } else { ExitInv(s, status); ExitEffect(s, status); }
    case KillOp => if i != s.cur { KeptDestroy(s, i); } else { DestroyEffect(s, s.cur); }
  }

  // ---------- what stays dead ----------

  predicate Birth(op: Op) { op.CreateOp? || op.ForkOp? }

  /** No slot comes to life but the one that a new process gets. */
  lemma NoBirth(s: State, op: Op, i: Slot)
    requires Inv(s) && Enabled(s, op) && Step(s, op).Some? && s.procs[i].status == Free
    requires !(Birth(op) && Empty(s.procs) == Some(i))
    ensures Step(s, op).value.procs[i].status == Free
  {
    assert SlotInv(s, s.cur) && SlotInv(s, i);
    match op
    case CreateOp(_) =>
    case ForkOp =>
    case YieldOp => ScheduleQueue(s); assert Similar(s.procs[i], Schedule(s).procs[i]);
    case TickOp => FreeTick(s, i);
    case SleepOp(msec) => FreeLeave(s, s.procs[s.cur].(status := Blocked, block := Sleeping), i);
    case BlockFsOp => FreeLeave(s, s.procs[s.cur].(status := Blocked, block := WaitFs), i);
    case UnblockOp(p) =>
    case WaitOp(pid) => FreeWait(s, pid, i);
    case ExitOp(status) => FreeExit(s, status, i);
    case KillOp => FreeDestroy(s, i);
    case SendOp(pid, msg) =>
    case ReceiveOp(block) => FreeReceive(s, block, i);
  }

  lemma FreeLeave(s: State, rec: Proc, i: Slot)
    requires QueueInv(s) && s.cur != IDLE && rec.status == Blocked && i != s.cur && s.procs[i].status == Free
    ensures var r := Deactivate(s.(procs := s.procs[s.cur := rec]), s.cur); r.Some? && r.value.procs[i].status == Free
  {
    LeaveQueue(s, rec, rec);
    assert Similar(s.procs[i], Deactivate(s.(procs := s.procs[s.cur := rec]), s.cur).value.procs[i]);
  }

  lemma FreeTick(s: State, i: Slot)
    requires Inv(s) && s.procs[i].status == Free
    ensures Tick(s, false).Some? && Tick(s, false).value.procs[i].status == Free
  {
    TickInv(s);
    WakeInv(s);
    WakeExact(s, false);
    ScheduleQueue(Wake(s, false));
    assert Similar(Wake(s, false).procs[i], Schedule(Wake(s, false)).procs[i]);
  }

  lemma FreeReceive(s: State, block: bool, i: Slot)
    requires Inv(s) && s.cur != IDLE && Receive(s, block).Some? && i != s.cur && s.procs[i].status == Free
    ensures Receive(s, block).value.procs[i].status == Free
  {
    var p := s.procs[s.cur];
    if p.status != Free && p.mailbox == [] && block {
      var rec := p.(waiting := true, status := Blocked, block := Receiving);
      assert s.procs[s.cur := p.(waiting := true)][s.cur := rec] == s.procs[s.cur := rec];
      FreeLeave(s, rec, i);
    }
  }

  lemma FreeWait(s: State, pid: nat, i: Slot)
    requires Inv(s) && s.cur != IDLE && Wait(s, pid).Some? && i != s.cur && s.procs[i].status == Free
    ensures Wait(s, pid).value.procs[i].status == Free
  {
    var o, c := Find(s.procs, pid).value, s.cur;
    if s.procs[o].status != Free && s.procs[o].waitProc == 0 {
      var s1 := s.(procs := s.procs[o := s.procs[o].(waitProc := s.procs[c].pid)]);
      RewriteRecord(s, o, s1.procs[o]);
      var s2 := s1.(procs := s1.procs[c := s1.procs[c].(waitFor := pid, eax := 0)]);
      var rec := s2.procs[c].(status := Blocked, block := WaitProc);
      assert s2.procs[c := rec] == s1.procs[c := rec];
      FreeLeave(s1, rec, i);
    }
  }

  lemma FreeDestroy(s: State, i: Slot)
    requires Inv(s) && s.cur != IDLE && Destroy(s, s.cur).Some? && s.procs[i].status == Free
    ensures Destroy(s, s.cur).value.procs[i].status == Free
  {
    FreeWake(s, i);
    DropWaitStatus(WakeWaiter(Unlinked(s, s.cur), s.cur).value, s.cur, i);
  }

  lemma FreeWake(s: State, i: Slot)
    requires Inv(s) && s.cur != IDLE && s.procs[i].status == Free
    ensures Deactivate(s, s.cur).Some? && WakeWaiter(Unlinked(s, s.cur), s.cur).Some?
    ensures WakeWaiter(Unlinked(s, s.cur), s.cur).value.procs[i].status == Free
  {
    WakeWaiterQueue(s, s.cur);
    DeathTableFree(s, i);
    assert Similar(DeathTable(s.procs, s.cur)[i], WakeWaiter(Unlinked(s, s.cur), s.cur).value.procs[i]);
  }

  lemma DropWaitStatus(s: State, p: Slot, i: Slot)
    ensures DropWait(s, p).Some? ==> DropWait(s, p).value.procs[i].status == s.procs[i].status
  {
  }

  lemma DeathTableFree(s: State, i: Slot)
    requires Inv(s) && s.cur != IDLE && s.procs[i].status == Free
    ensures DeathTable(s.procs, s.cur)[i].status == Free
  {
    if s.procs[s.cur].waitProc != 0 { var w := WaiterFound(s, s.cur); }
  }

  lemma FreeExit(s: State, status: int, i: Slot)
    requires Inv(s) && s.cur != IDLE && Exit(s, status).Some? && i != s.cur && s.procs[i].status == Free
    ensures Exit(s, status).value.procs[i].status == Free
  {
    ExitingInv(s, status);
    var s0 := Exiting(s, status);
    FreeDestroy(s0, i);
    DestroyInv(s0, s.cur);
    var s1 := Destroy(s0, s.cur).value;
    ScheduleQueue(s1);
    assert Similar(s1.procs[i], Schedule(s1).procs[i]);
  }

  // ---------- messages ----------

  /** The message, stamped with its sender, that this step adds to the traffic of slot `i`. */
  function Accepted(s: State, op: Op, i: Slot): seq<Msg> {
    if op.SendOp? && Find(s.procs, op.pid) == Some(i) && SendAnswer(s, i) == Done then [Stamped(s, op.msg)] else []
  }

  /** `m` is the message that a process with this pid handed in, with its pid filled in as the sender. */
  predicate Carries(m: Msg, pid: nat, msg: Msg) {
    && m.sender == pid
    && m.cmd == msg.cmd && m.subcmd == msg.subcmd && m.param1 == msg.param1 && m.param2 == msg.param2
  }

  /** What is accepted is the message handed in, from the process that is current. */
  lemma AcceptedFrom(s: State, op: Op, i: Slot)
    ensures |Accepted(s, op, i)| <= 1
    ensures forall m | m in Accepted(s, op, i) :: op.SendOp? && Carries(m, s.procs[s.cur].pid, op.msg)
  {
  }

  /** The message this step copies into the message buffer of the process in slot `i`: the oldest one, when the
      process asks for it or is sent one it is blocked for. */
  function Delivered(s: State, op: Op, i: Slot): seq<Msg> {
    var p := s.procs[i];
    if op.SendOp? && Find(s.procs, op.pid) == Some(i) && p.status == Blocked && p.block == Receiving
    then (p.mailbox + Accepted(s, op, i))[..1]
    else if op.ReceiveOp? && i == s.cur && p.mailbox != [] then p.mailbox[..1]
    else []
  }

  /** From `p` to `p'` the messages `a` were accepted and the messages `d` handed out, oldest first. */
  ghost predicate Mailed(p: Proc, p': Proc, a: seq<Msg>, d: seq<Msg>) {
    p'.received == p.received + d && p.mailbox + a == d + p'.mailbox
  }

  lemma MailedNone(p: Proc, p': Proc)
    requires p'.received == p.received && p'.mailbox == p.mailbox
    ensures Mailed(p, p', [], [])
  {
  }

  lemma TickKeepsMail(s: State, i: Slot)
    requires Inv(s)
    ensures Step(s, TickOp).Some? && Mailed(s.procs[i], Step(s, TickOp).value.procs[i], [], [])
    ensures var p, p' := s.procs[i], Step(s, TickOp).value.procs[i];
            p'.pid == p.pid && p'.exitStatus == p.exitStatus && p'.eax == p.eax
  {
    TickInv(s);
    var s1 := Wake(s, false);
    WakeKeepsMail(s, i);
    WakeInv(s);
    ScheduleQueue(s1);
    assert Similar(s1.procs[i], Schedule(s1).procs[i]);
  }

  lemma WakeKeepsMail(s: State, i: Slot)
    requires Inv(s)
    ensures var p, p' := s.procs[i], Wake(s, false).procs[i];
            && p'.mailbox == p.mailbox && p'.received == p.received && p'.pid == p.pid
            && p'.exitStatus == p.exitStatus && p'.eax == p.eax
  {
    WakeExact(s, false);
  }

  /** In every step, the kernel copies exactly the delivered messages into the buffers of a process, and what
      waited in its mailbox and was accepted is what was delivered and what waits after. */
  lemma MailStep(s: State, op: Op, i: Slot)
    requires Inv(s) && Enabled(s, op) && Step(s, op).Some?
    requires s.procs[i].status != Free && Step(s, op).value.procs[i].status != Free
    ensures Mailed(s.procs[i], Step(s, op).value.procs[i], Accepted(s, op, i), Delivered(s, op, i))
  {
    match op
    case TickOp => TickKeepsMail(s, i);
    case SendOp(pid, msg) => SendMail(s, Find(s.procs, pid).value, msg, i);
    case ReceiveOp(block) => ReceiveMail(s, block, i);
    case _ =>
      StepKeeps(s, op, i);
      MailedNone(s.procs[i], Step(s, op).value.procs[i]);
  }

  lemma SendMail(s: State, to: Slot, msg: Msg, i: Slot)
    requires Inv(s)
    ensures var p, a := s.procs[i], if i == to && SendAnswer(s, to) == Done then [Stamped(s, msg)] else [];
            Mailed(p, Send(s, to, msg).procs[i], a, if i == to && BlockedFor(p, Receiving) then (p.mailbox + a)[..1] else [])
  {
    var p := s.procs[i];
    assert MailOk(p);
    if i != to {
      MailedNone(p, Send(s, to, msg).procs[i]);
    } else if BlockedFor(p, Receiving) {
      assert ([] + [Stamped(s, msg)])[1..] == [];
    }
  }

  lemma ReceiveMail(s: State, block: bool, i: Slot)
    requires Inv(s) && s.cur != IDLE && Receive(s, block).Some?
    ensures var p := s.procs[i];
            Mailed(p, Receive(s, block).value.procs[i], [], if i == s.cur && p.mailbox != [] then p.mailbox[..1] else [])
  {
    var p := s.procs[s.cur];
    assert SlotInv(s, s.cur);
    if p.mailbox != [] {
      assert p.mailbox == p.mailbox[..1] + p.mailbox[1..];
    } else if block {
      var rec := p.(waiting := true, status := Blocked, block := Receiving);
      assert s.procs[s.cur := p.(waiting := true)][s.cur := rec] == s.procs[s.cur := rec];
      KeptLeave(s, rec, i);
    }
  }

  /** The process in slot `i` lives through the whole run. */
  predicate LivesThrough(s: State, ops: seq<Op>, i: Slot)
    decreases ops
  {
    && s.procs[i].status != Free
    && (ops != [] && Step(s, ops[0]).Some? ==> LivesThrough(Step(s, ops[0]).value, ops[1..], i))
  }

  function AllAccepted(s: State, ops: seq<Op>, i: Slot): seq<Msg>
    decreases ops
  {
    if ops == [] then []
    else match Step(s, ops[0])
      case None => Accepted(s, ops[0], i)
      case Some(s1) => Accepted(s, ops[0], i) + AllAccepted(s1, ops[1..], i)
  }

  /** Who handed in what, for each message accepted. */
  function Senders(s: State, ops: seq<Op>, i: Slot): seq<(nat, Msg)>
    decreases ops
  {
    if ops == [] then []
    else
      var first := if ops[0].SendOp? && Accepted(s, ops[0], i) != [] then [(s.procs[s.cur].pid, ops[0].msg)] else [];
      match Step(s, ops[0])
      case None => first
      case Some(s1) => first + Senders(s1, ops[1..], i)
  }

  /** Every message accepted in a run carries the pid of the process that was current when it was sent. */
  ghost predicate CarriesAll(ms: seq<Msg>, from: seq<(nat, Msg)>) {
    |ms| == |from| && forall k | 0 <= k < |ms| :: Carries(ms[k], from[k].0, from[k].1)
  }

  lemma {:induction false} SentRun(s: State, ops: seq<Op>, i: Slot)
    requires Run(s, ops).Some?
    ensures CarriesAll(AllAccepted(s, ops, i), Senders(s, ops, i))
    decreases ops
  {
    if ops != [] {
      var s1, rest := Step(s, ops[0]).value, ops[1..];
      SentRun(s1, rest, i);
      AcceptedFrom(s, ops[0], i);
      var first := if ops[0].SendOp? && Accepted(s, ops[0], i) != [] then [(s.procs[s.cur].pid, ops[0].msg)] else [];
      CarriesMore(Accepted(s, ops[0], i), first, AllAccepted(s1, rest, i), Senders(s1, rest, i));
    }
  }

  lemma CarriesMore(ms: seq<Msg>, from: seq<(nat, Msg)>, ms': seq<Msg>, from': seq<(nat, Msg)>)
    requires CarriesAll(ms, from) && CarriesAll(ms', from')
    ensures CarriesAll(ms + ms', from + from')
  {
  }

  function AllDelivered(s: State, ops: seq<Op>, i: Slot): seq<Msg>
    decreases ops
  {
    if ops == [] then []
    else match Step(s, ops[0])
      case None => Delivered(s, ops[0], i)
      case Some(s1) => Delivered(s, ops[0], i) + AllDelivered(s1, ops[1..], i)
  }

  /** Exactly-once, first-in first-out: over any run the messages the kernel copied to a process, followed by the
      at most 24 still waiting, are those that waited at its start followed by those accepted since, each with the pid
      of the process that sent it. */
  lemma {:induction false} MailRun(s: State, ops: seq<Op>, i: Slot)
    requires Inv(s) && Possible(s, ops) && Run(s, ops).Some? && LivesThrough(s, ops, i)
    ensures Mailed(s.procs[i], Run(s, ops).value.procs[i], AllAccepted(s, ops, i), AllDelivered(s, ops, i))
    ensures CarriesAll(AllAccepted(s, ops, i), Senders(s, ops, i))
    ensures |Run(s, ops).value.procs[i].mailbox| <= MAILBOX
    decreases ops
  {
    SentRun(s, ops, i);
    assert MailOk(s.procs[i]);
    if ops == [] {
      MailedNone(s.procs[i], s.procs[i]);
    } else {
      var s1, op, rest := Step(s, ops[0]).value, ops[0], ops[1..];
      StepInv(s, op);
      MailStep(s, op, i);
      MailRun(s1, rest, i);
      MailChain(s.procs[i], s1.procs[i], Run(s1, rest).value.procs[i], Accepted(s, op, i), Delivered(s, op, i),
                AllAccepted(s1, rest, i), AllDelivered(s1, rest, i));
    }
  }

  lemma MailChain(p: Proc, p1: Proc, p2: Proc, a: seq<Msg>, d: seq<Msg>, as1: seq<Msg>, ds1: seq<Msg>)
    requires Mailed(p, p1, a, d) && Mailed(p1, p2, as1, ds1)
    ensures Mailed(p, p2, a + as1, d + ds1)
  {
    assert p.mailbox + (a + as1) == (p.mailbox + a) + as1;
    assert (d + p1.mailbox) + as1 == d + (p1.mailbox + as1);
    assert d + (ds1 + p2.mailbox) == (d + ds1) + p2.mailbox;
    assert (p.received + d) + ds1 == p.received + (d + ds1);
  }

  // ---------- sleepers ----------

  /** A sleeper sleeps through every step but the tick that reaches its wake-up time; that tick makes it
      ready and queues it. */
  lemma SleeperStep(s: State, op: Op, j: Slot)
    requires Inv(s) && Enabled(s, op) && Step(s, op).Some? && BlockedFor(s.procs[j], Sleeping)
    ensures var s' := Step(s, op).value;
            if op.TickOp? && IsOverdue(s.procs[j], s'.ticks)
            then Runnable(s'.procs[j]) && j in s'.queue && s'.procs[j].wakeup == 0
            else BlockedFor(s'.procs[j], Sleeping) && s'.procs[j].wakeup == s.procs[j].wakeup
  {
    assert SlotInv(s, j) && SlotInv(s, s.cur);
    match op
    case TickOp => SleeperTick(s, j);
    case SendOp(_, _) =>
    case ReceiveOp(block) => ReceiveSleeper(s, block, j);
    case ExitOp(status) => KeptExit(s, status, j);
    case KillOp => KeptDestroy(s, j);
    case _ =>
      StepKeeps(s, op, j);
      StepLives(s, op, j);
  }

  lemma SleeperTick(s: State, j: Slot)
    requires Inv(s) && BlockedFor(s.procs[j], Sleeping)
    ensures Step(s, TickOp).Some?
    ensures var s' := Step(s, TickOp).value;
            && s'.ticks == s.ticks + 1
            && if IsOverdue(s.procs[j], s.ticks + 1)
               then Runnable(s'.procs[j]) && j in s'.queue && s'.procs[j].wakeup == 0
               else BlockedFor(s'.procs[j], Sleeping) && s'.procs[j].wakeup == s.procs[j].wakeup
  {
    TickInv(s);
    WakeInv(s);
    WakeExact(s, false);
    var s1 := Wake(s, false);
    ScheduleQueue(s1);
    assert Similar(s1.procs[j], Schedule(s1).procs[j]);
    assert SlotInv(Schedule(s1), j);
  }

  lemma ReceiveSleeper(s: State, block: bool, j: Slot)
    requires Inv(s) && s.cur != IDLE && Receive(s, block).Some? && BlockedFor(s.procs[j], Sleeping)
    ensures BlockedFor(Receive(s, block).value.procs[j], Sleeping)
    ensures Receive(s, block).value.procs[j].wakeup == s.procs[j].wakeup
  {
    var p := s.procs[s.cur];
    assert SlotInv(s, s.cur);
    if p.mailbox == [] && block {
      var rec := p.(waiting := true, status := Blocked, block := Receiving);
      assert s.procs[s.cur := p.(waiting := true)][s.cur := rec] == s.procs[s.cur := rec];
      KeptLeave(s, rec, j);
    }
  }

  lemma StepLives(s: State, op: Op, j: Slot)
    requires Inv(s) && Enabled(s, op) && Step(s, op).Some? && BlockedFor(s.procs[j], Sleeping)
    requires !op.TickOp? && !op.SendOp? && !op.ReceiveOp? && !op.ExitOp? && !op.KillOp?
    ensures Step(s, op).value.procs[j].status != Free
  {
    assert SlotInv(s, s.cur);
    match op
    case CreateOp(ready) =>
    case ForkOp =>
    case YieldOp => KeptSchedule(s, j);
    case SleepOp(msec) => KeptLeave(s, s.procs[s.cur].(status := Blocked, block := Sleeping), j);
    case BlockFsOp => KeptLeave(s, s.procs[s.cur].(status := Blocked, block := WaitFs), j);
    case UnblockOp(p) =>
    case WaitOp(pid) => KeptWait(s, pid, j);
  }

  /** Over a whole run: as long as its tick has not come, a sleeper is asleep. */
  lemma {:induction false} SleepsUntil(s: State, ops: seq<Op>, j: Slot)
    requires Inv(s) && Possible(s, ops) && Run(s, ops).Some?
    requires BlockedFor(s.procs[j], Sleeping) && s.procs[j].wakeup != 0 && s.ticks < s.procs[j].wakeup
    requires Run(s, ops).value.ticks < s.procs[j].wakeup
    ensures var s' := Run(s, ops).value; BlockedFor(s'.procs[j], Sleeping) && s'.procs[j].wakeup == s.procs[j].wakeup
    decreases ops
  {
    if ops != [] {
      StepInv(s, ops[0]);
      var s1 := Step(s, ops[0]).value;
      TicksGrow(s1, ops[1..]);
      SleeperStep(s, ops[0], j);
      SleepsUntil(s1, ops[1..], j);
    }
  }

  lemma {:induction false} TicksGrow(s: State, ops: seq<Op>)
    requires Inv(s) && Possible(s, ops) && Run(s, ops).Some?
    ensures s.ticks <= Run(s, ops).value.ticks
    decreases ops
  {
    if ops != [] {
      StepInv(s, ops[0]);
      TicksStep(s, ops[0]);
      TicksGrow(Step(s, ops[0]).value, ops[1..]);
    }
  }

  lemma TicksStep(s: State, op: Op)
    requires Inv(s) && Step(s, op).Some?
    ensures Step(s, op).value.ticks == s.ticks + if op.TickOp? then 1 else 0
  {
    if op.TickOp? { TickFrame(s); } else { StepFrame(s, op); }
  }

  lemma TickFrame(s: State)
    requires Inv(s)
    ensures Tick(s, false).Some? && Tick(s, false).value.ticks == s.ticks + 1 && Tick(s, false).value.nextPid == s.nextPid
  {
    TickInv(s);
    WakeExact(s, false);
  }

  /** Only a tick moves the clock, and only a birth the pid counter. */
  lemma StepFrame(s: State, op: Op)
    requires Step(s, op).Some? && !op.TickOp?
    ensures Step(s, op).value.ticks == s.ticks
    ensures Step(s, op).value.nextPid ==
            if op.CreateOp? || (op.ForkOp? && Empty(s.procs).Some?) then (s.nextPid + 1) % WORD else s.nextPid
  {
    match op
    case WaitOp(pid) => WaitStepFrame(s, pid);
    case ExitOp(status) => DestroyFrame(Exiting(s, status), s.cur);
    case KillOp => DestroyFrame(s, s.cur);
    case ReceiveOp(block) =>
      var s1 := s.(procs := s.procs[s.cur := s.procs[s.cur].(waiting := true)]);
      BlockFrame(s1, s.cur, Receiving);
    case SleepOp(msec) => BlockFrame(s, s.cur, Sleeping);
    case BlockFsOp => BlockFrame(s, s.cur, WaitFs);
    case _ =>
  }

  lemma BlockFrame(s: State, p: Slot, reason: Reason)
    ensures var r := Block(s, p, reason); r.Some? ==> r.value.ticks == s.ticks && r.value.nextPid == s.nextPid
  {
  }

  lemma WaitStepFrame(s: State, pid: nat)
    requires Wait(s, pid).Some?
    ensures Wait(s, pid).value.ticks == s.ticks && Wait(s, pid).value.nextPid == s.nextPid
  {
  }

  lemma DestroyFrame(s: State, p: Slot)
    requires Destroy(s, p).Some?
    ensures Destroy(s, p).value.ticks == s.ticks && Destroy(s, p).value.nextPid == s.nextPid
  {
    var s1 := Deactivate(s, p).value;
    assert s1.ticks == s.ticks && s1.nextPid == s.nextPid;
    var s2 := WakeWaiter(s1.(procs := s1.procs[p := s1.procs[p].(status := Free)]), p).value;
    assert s2.ticks == s.ticks && s2.nextPid == s.nextPid;
  }

  /** A sleeper armed with tick 0 is never woken, whatever happens. */
  lemma {:induction false} NeverWoken(s: State, ops: seq<Op>, j: Slot)
    requires Inv(s) && Possible(s, ops) && Run(s, ops).Some? && BlockedFor(s.procs[j], Sleeping) && s.procs[j].wakeup == 0
    ensures BlockedFor(Run(s, ops).value.procs[j], Sleeping)
    decreases ops
  {
    if ops != [] {
      StepInv(s, ops[0]);
      SleeperStep(s, ops[0], j);
      NeverWoken(Step(s, ops[0]).value, ops[1..], j);
    }
  }

  /** So is a process that asks for 10 milliseconds at tick 0xFFFF_FFFF. */
  lemma AsleepForGood(s: State, ops: seq<Op>)
    requires Inv(s) && s.cur != IDLE && s.ticks == 0xFFFF_FFFF
    ensures Sleep(s, 10).Some?
    ensures var s1 := Sleep(s, 10).value;
            Possible(s1, ops) && Run(s1, ops).Some? ==> BlockedFor(Run(s1, ops).value.procs[s.cur], Sleeping)
  {
    assert WakeTick(s.ticks, 10) == 0;
    SleepsForGoodIff(s, 10);
  }

  function Ticks(n: nat): seq<Op> {
    seq(n, _ => TickOp)
  }

  /** Any other sleeper is woken by letting time pass: by the first tick not before its time. */
  lemma {:induction false} WokenInTime(s: State, j: Slot, n: nat)
    requires Inv(s) && BlockedFor(s.procs[j], Sleeping) && s.procs[j].wakeup != 0
    requires n == if s.ticks < s.procs[j].wakeup then s.procs[j].wakeup - s.ticks else 1
    ensures Possible(s, Ticks(n)) && Run(s, Ticks(n)).Some? && Runnable(Run(s, Ticks(n)).value.procs[j])
    decreases n
  {
    var ops := Ticks(n);
    StepInv(s, TickOp);
    SleeperTick(s, j);
    var s1 := Step(s, TickOp).value;
    assert ops[0] == TickOp && ops[1..] == Ticks(n - 1);
    if n > 1 { WokenInTime(s1, j, n - 1); }
  }

  /** timer_sleep puts the caller to sleep for good exactly when the 32-bit wake-up tick comes out as 0. */
  lemma SleepsForGoodIff(s: State, msec: nat)
    requires Inv(s) && s.cur != IDLE
    ensures Sleep(s, msec).Some?
    ensures WakeTick(s.ticks, msec) == 0 <==>
            forall ops | Possible(Sleep(s, msec).value, ops) && Run(Sleep(s, msec).value, ops).Some? ::
              BlockedFor(Run(Sleep(s, msec).value, ops).value.procs[s.cur], Sleeping)
  {
    SleepStepInv(s, msec);
    var s1, j := Sleep(s, msec).value, s.cur;
    SleepSets(s, msec);
    if WakeTick(s.ticks, msec) == 0 {
      forall ops | Possible(s1, ops) && Run(s1, ops).Some? ensures BlockedFor(Run(s1, ops).value.procs[j], Sleeping) {
        NeverWoken(s1, ops, j);
      }
    } else {
      var n := if s1.ticks < s1.procs[j].wakeup then s1.procs[j].wakeup - s1.ticks else 1;
      WokenInTime(s1, j, n);
      assert Possible(s1, Ticks(n)) && Run(s1, Ticks(n)).Some?;
    }
  }

  lemma SleepSets(s: State, msec: nat)
    requires Inv(s) && s.cur != IDLE && Sleep(s, msec).Some?
    ensures BlockedFor(Sleep(s, msec).value.procs[s.cur], Sleeping)
    ensures Sleep(s, msec).value.procs[s.cur].wakeup == WakeTick(s.ticks, msec)
  {
    LeaveQueue(s, s.procs[s.cur].(status := Blocked, block := Sleeping), s.procs[s.cur].(status := Blocked, block := Sleeping));
  }
}
