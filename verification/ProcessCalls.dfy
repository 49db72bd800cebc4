/** What the calls of kernel/pm.c and kernel/timer.c return, and for how long a process sleeps. */
module ProcessCalls {
  import opened Common
  import opened ProcessModel
  import opened ProcessInvariant
  import opened ProcessSteps
  import opened ProcessDeath
  import opened ProcessRuns
  import opened ProcessHistory

  // ---------- exit statuses ----------

  /** No live process has an exit status yet. */
  ghost predicate Unended(s: State) {
    forall i: Slot :: s.procs[i].status != Free ==> s.procs[i].exitStatus == -1
  }

  lemma StatusStays(s: State, op: Op, i: Slot)
    requires Inv(s) && Enabled(s, op) && Step(s, op).Some?
    requires s.procs[i].status != Free && Step(s, op).value.procs[i].status != Free
    ensures Step(s, op).value.procs[i].exitStatus == s.procs[i].exitStatus
  {
    match op
    case TickOp => TickKeepsMail(s, i);
    case SendOp(pid, msg) =>
    case ReceiveOp(block) => ReceiveStays(s, block, i);
    case _ => StepKeeps(s, op, i);
  }

  lemma ReceiveStays(s: State, block: bool, i: Slot)
    requires Inv(s) && s.cur != IDLE && Receive(s, block).Some?
    ensures var p, p' := s.procs[i], Receive(s, block).value.procs[i]; p'.exitStatus == p.exitStatus && p'.eax == p.eax
  {
    var p := s.procs[s.cur];
    assert SlotInv(s, s.cur);
    if p.mailbox == [] && block {
      var rec := p.(waiting := true, status := Blocked, block := Receiving);
      assert s.procs[s.cur := p.(waiting := true)][s.cur := rec] == s.procs[s.cur := rec];
      LeaveQueue(s, rec, rec);
      assert i != s.cur ==> Similar(s.procs[i], Receive(s, block).value.procs[i]);
    }
  }

  /** Only births bring a free slot to life, and with no exit status. */
  lemma Newborn(s: State, op: Op, i: Slot)
    requires Inv(s) && Enabled(s, op) && Step(s, op).Some?
    requires s.procs[i].status == Free && Step(s, op).value.procs[i].status != Free
    ensures Step(s, op).value.procs[i].exitStatus == -1 && Step(s, op).value.procs[i].eax == 0
    ensures Birth(op) && Empty(s.procs) == Some(i)
  {
    if !(Birth(op) && Empty(s.procs) == Some(i)) { NoBirth(s, op, i); }
  }

  lemma StepUnended(s: State, op: Op)
    requires Inv(s) && Unended(s) && Enabled(s, op) && Step(s, op).Some?
    ensures Unended(Step(s, op).value)
  {
    var s' := Step(s, op).value;
    forall i: Slot | s'.procs[i].status != Free ensures s'.procs[i].exitStatus == -1 {
      if s.procs[i].status == Free { Newborn(s, op, i); } else { StatusStays(s, op, i); }
    }
  }

  /** So it is in every state of every run from boot. */
  lemma {:induction false} RunUnended(s: State, ops: seq<Op>)
    requires Inv(s) && Unended(s) && Possible(s, ops) && Run(s, ops).Some?
    ensures Unended(Run(s, ops).value)
    decreases ops
  {
    if ops != [] {
      StepUnended(s, ops[0]);
      StepInv(s, ops[0]);
      RunUnended(Step(s, ops[0]).value, ops[1..]);
    }
  }

  lemma ReachableUnended(ops: seq<Op>)
    requires Possible(Boot(), ops) && Run(Boot(), ops).Some?
    ensures Unended(Run(Boot(), ops).value)
  {
    BootInv();
    RunUnended(Boot(), ops);
  }

  // ---------- return values ----------

  /** Process `i` waits for process `p` to end. */
  predicate WaitsFor(procs: Table, i: Slot, p: Slot) {
    BlockedFor(procs[i], WaitProc) && procs[i].waitFor == procs[p].pid
  }

  /** The value that a step returns to process `i`: fork returns the pid of the child to the parent and 0 to the child,
      or -1; waitpid returns -1 at once for a process that is dead or is waited for; and who waits for a process that
      ends gets its exit status, -1 if it was killed. */
  function Returned(s: State, op: Op, i: Slot): Option<int> {
    match op
    case CreateOp(_) => if Empty(s.procs) == Some(i) then Some(0) else None
    case ForkOp =>
      if i == s.cur then Some(if Empty(s.procs) == None then -1 else s.nextPid)
      else if Empty(s.procs) == Some(i) then Some(0) else None
    case WaitOp(pid) => if i != s.cur then None else Some(if Waitable(s.procs, pid) then 0 else -1)
    case ExitOp(status) => if WaitsFor(s.procs, i, s.cur) then Some(status) else None
    case KillOp => if WaitsFor(s.procs, i, s.cur) then Some(-1) else None
    case _ => None
  }

  predicate Waitable(procs: Table, pid: nat) {
    exists o: Slot :: procs[o].pid == pid && procs[o].status != Free && procs[o].waitProc == 0
  }

  function Value(was: int, v: Option<int>): int { if v.Some? then v.value else was }

  /** Every step leaves the return values of all live processes as they were, except for these. */
  lemma StepReturns(s: State, op: Op, i: Slot)
    requires Inv(s) && Unended(s) && Enabled(s, op) && Step(s, op).Some? && Step(s, op).value.procs[i].status != Free
    ensures Step(s, op).value.procs[i].eax == Value(s.procs[i].eax, Returned(s, op, i))
  {
    match op
    case WaitOp(pid) => WaitReturns(s, pid, i);
    case ExitOp(status) => ExitReturns(s, status, i);
    case KillOp => DestroyReturns(s, i);
    case SleepOp(_) => LeaveReturns(s, s.procs[s.cur].(status := Blocked, block := Sleeping), i);
    case BlockFsOp => LeaveReturns(s, s.procs[s.cur].(status := Blocked, block := WaitFs), i);
    case _ => OtherReturns(s, op, i);
  }

  /** The steps by which no process leaves the queue, but for a receiver. */
  lemma OtherReturns(s: State, op: Op, i: Slot)
    requires Inv(s) && Enabled(s, op) && Step(s, op).Some?
    requires !op.WaitOp? && !op.ExitOp? && !op.KillOp? && !op.SleepOp? && !op.BlockFsOp?
    ensures Step(s, op).value.procs[i].eax == Value(s.procs[i].eax, Returned(s, op, i))
  {
    match op
    case CreateOp(_) =>
    case ForkOp =>
    case YieldOp => ScheduleQueue(s); assert Similar(s.procs[i], Schedule(s).procs[i]);
    case TickOp => TickKeepsMail(s, i);
    case UnblockOp(_) =>
    case SendOp(_, _) =>
    case ReceiveOp(block) => ReceiveStays(s, block, i);
  }

  lemma LeaveReturns(s: State, rec: Proc, i: Slot)
    requires QueueInv(s) && s.cur != IDLE && rec.status == Blocked
    ensures var r := Deactivate(s.(procs := s.procs[s.cur := rec]), s.cur);
            r.Some? && r.value.procs[i].eax == if i == s.cur then rec.eax else s.procs[i].eax
  {
    LeaveQueue(s, rec, rec);
    assert i != s.cur ==> Similar(s.procs[i], Deactivate(s.(procs := s.procs[s.cur := rec]), s.cur).value.procs[i]);
  }

  /** Only one process has the pid of a live one. */
  lemma WaitableIs(s: State, pid: nat)
    requires Inv(s) && Find(s.procs, pid).Some?
    ensures var o := Find(s.procs, pid).value;
            Waitable(s.procs, pid) <==> s.procs[o].status != Free && s.procs[o].waitProc == 0
  {
    if Waitable(s.procs, pid) {
      var o: Slot :| s.procs[o].pid == pid && s.procs[o].status != Free && s.procs[o].waitProc == 0;
      FindsLive(s, o);
    }
  }

  lemma WaitReturns(s: State, pid: nat, i: Slot)
    requires Inv(s) && s.cur != IDLE && Wait(s, pid).Some?
    ensures Wait(s, pid).value.procs[i].eax == Value(s.procs[i].eax, Returned(s, WaitOp(pid), i))
  {
    WaitableIs(s, pid);
    var o, c := Find(s.procs, pid).value, s.cur;
    if s.procs[o].status != Free && s.procs[o].waitProc == 0 {
      var s1 := s.(procs := s.procs[o := s.procs[o].(waitProc := s.procs[c].pid)]);
      RewriteRecord(s, o, s1.procs[o]);
      var s2 := s1.(procs := s1.procs[c := s1.procs[c].(waitFor := pid, eax := 0)]);
      var rec := s2.procs[c].(status := Blocked, block := WaitProc);
      assert s2.procs[c := rec] == s1.procs[c := rec];
      LeaveReturns(s1, rec, i);
    }
  }

  /** The process that pm_destroy hands the exit status to is the one that waits. */
  lemma WaiterIs(s: State, i: Slot)
    requires Inv(s) && s.cur != IDLE && s.procs[i].status != Free
    ensures var p := s.procs[s.cur];
            WaitsFor(s.procs, i, s.cur) <==> p.waitProc != 0 && Find(s.procs, p.waitProc) == Some(i)
  {
    assert WaitOk(s.procs, s.cur) && WaitOk(s.procs, i) && SlotInv(s, s.cur);
    FindsLive(s, s.cur);
    FindsLive(s, i);
    CoreLookups(s);
    assert LookedUp(s.procs, i);
  }

  lemma DestroyReturns(s: State, i: Slot)
    requires Inv(s) && s.cur != IDLE && Destroy(s, s.cur).Some? && Destroy(s, s.cur).value.procs[i].status != Free
    ensures Destroy(s, s.cur).value.procs[i].eax ==
              if WaitsFor(s.procs, i, s.cur) then s.procs[s.cur].exitStatus else s.procs[i].eax
  {
    assert SlotInv(s, s.cur);
    DestroyEffect(s, s.cur);
    if s.procs[i].status == Free { FreeDestroy(s, i); }
    WaiterIs(s, i);
    assert Similar(DeathTable(s.procs, s.cur)[i], Destroy(s, s.cur).value.procs[i]);
  }

  lemma ExitReturns(s: State, status: int, i: Slot)
    requires Inv(s) && s.cur != IDLE && Exit(s, status).Some? && Exit(s, status).value.procs[i].status != Free
    ensures Exit(s, status).value.procs[i].eax == if WaitsFor(s.procs, i, s.cur) then status else s.procs[i].eax
  {
    ExitingInv(s, status);
    var s0 := Exiting(s, status);
    DestroyInv(s0, s.cur);
    var s1 := Destroy(s0, s.cur).value;
    ScheduleQueue(s1);
    assert Similar(s1.procs[i], Schedule(s1).procs[i]);
    DestroyReturns(s0, i);
  }

  /** fork: the parent gets the pid of the child, which no other process has. */
  lemma ForkReturns(s: State)
    requires Inv(s) && s.cur != IDLE && s.nextPid + 1 < WORD && Empty(s.procs).Some?
    ensures var c, s' := Empty(s.procs).value, Fork(s);
            && s'.procs[c].status == Ready && c in s'.queue && s'.procs[c].eax == 0
            && s'.procs[s.cur].eax == s'.procs[c].pid
            && forall i: Slot :: i != c && s'.procs[i].status != Free ==> s'.procs[i].pid != s'.procs[c].pid
  {
    ForkInv(s);
    var c, s' := Empty(s.procs).value, Fork(s);
    assert SlotInv(s, s.cur) && SlotInv(s', c);
    forall i: Slot | i != c && s'.procs[i].status != Free ensures s'.procs[i].pid != s'.procs[c].pid {
      FindsLive(s', i);
      FindsLive(s', c);
    }
  }

  // ---------- how long a process sleeps ----------

  /** The wake-up tick is the milliseconds, in ticks of 10, from now exactly if neither product nor sum passes 2^32. */
  lemma SleepIff(ticks: nat, msec: nat)
    ensures WakeTick(ticks, msec) == ticks + msec / 10 <==> msec * TIMER_HZ < WORD && ticks + msec / 10 < WORD
  {
    var product := msec * TIMER_HZ;
    assert product / 1000 == msec / 10;
    var cut := product % WORD / 1000;
    if product >= WORD { assert product % WORD + WORD <= product; }
  }

  /** Half a day asked for at tick 0 is over with the next tick. */
  lemma SleepCutShort()
    ensures WakeTick(0, 42949683) == 1
  {
  }
}
