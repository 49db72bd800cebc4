/** The main results about the process core: what holds in every state of every run. */
module ProcessRuns {
  import opened Common
  import opened ProcessModel
  import opened ProcessInvariant
  import opened ProcessSteps
  import opened ProcessDeath
  import opened ProcessTimer

  /** The steps the kernel does not survive: a full table, a pid that is nowhere in the table, and an
      exit of a process whose last awaited pid is nowhere in the table any more. */
  predicate Crashes(s: State, op: Op) {
    match op
    case CreateOp(_) => Empty(s.procs).None?
    case WaitOp(pid) => Find(s.procs, pid).None?
    case SendOp(pid, _) => Find(s.procs, pid).None?
    case ExitOp(_) => !WaitForFound(s, s.cur)
    case KillOp => !WaitForFound(s, s.cur)
    case _ => false
  }

  lemma BootInv()
    ensures Inv(Boot())
  {
    var s := Boot();
    assert s.queue == [IDLE];
    forall i: Slot ensures SlotInv(s, i) && WaitOk(s.procs, i) && MailOk(s.procs[i]) { }
    assert PidInv(s.procs, s.nextPid, 1);
  }

  /** From a state with the invariant, an enabled step crashes exactly as listed and else keeps it. */
  lemma StepInv(s: State, op: Op)
    requires Inv(s) && Enabled(s, op)
    ensures Step(s, op).None? <==> Crashes(s, op)
    ensures Step(s, op).Some? ==> Inv(Step(s, op).value)
  {
    match op
    case CreateOp(ready) => CreateInv(s, if ready then Ready else Blocked);
    case ForkOp => ForkInv(s);
    case YieldOp => ScheduleInv(s);
    case TickOp => TickInv(s);
    case SleepOp(msec) => SleepStepInv(s, msec);
    case BlockFsOp => BlockFsInv(s);
    case UnblockOp(p) => UnblockInv(s, p);
    case WaitOp(pid) => if Find(s.procs, pid).Some? { WaitStepInv(s, pid); }
    case ExitOp(status) => ExitInv(s, status);
    case KillOp => DestroyInv(s, s.cur);
    case SendOp(pid, msg) => if Find(s.procs, pid).Some? { SendInv(s, Find(s.procs, pid).value, msg); }
    case ReceiveOp(block) => ReceiveInv(s, block);
  }

  // ---------- runs ----------

  /** The state after `ops`, None after a crash. */
  function Run(s: State, ops: seq<Op>): Option<State>
    decreases ops
  {
    if ops == [] then Some(s)
    else match Step(s, ops[0])
      case None => None
      case Some(s1) => Run(s1, ops[1..])
  }

  /** Every step of the run is one the kernel takes. */
  predicate Possible(s: State, ops: seq<Op>)
    decreases ops
  {
    ops != [] ==>
      && Enabled(s, ops[0])
      && (Step(s, ops[0]).Some? ==> Possible(Step(s, ops[0]).value, ops[1..]))
  }

  lemma {:induction false} RunInv(s: State, ops: seq<Op>)
    requires Inv(s) && Possible(s, ops) && Run(s, ops).Some?
    ensures Inv(Run(s, ops).value)
    decreases ops
  {
    if ops != [] {
      StepInv(s, ops[0]);
      RunInv(Step(s, ops[0]).value, ops[1..]);
    }
  }

  /** Every state reached from boot satisfies the invariant. */
  lemma ReachableInv(ops: seq<Op>)
    requires Possible(Boot(), ops) && Run(Boot(), ops).Some?
    ensures Inv(Run(Boot(), ops).value)
  {
    BootInv();
    RunInv(Boot(), ops);
  }

  // ---------- consequences for every reachable state ----------

  /** Two processes are never blocked on the same process. */
  lemma OneWaiter(s: State, j: Slot, k: Slot)
    requires Inv(s) && BlockedFor(s.procs[j], WaitProc) && BlockedFor(s.procs[k], WaitProc)
    requires s.procs[j].waitFor == s.procs[k].waitFor
    ensures j == k
  {
    assert WaitOk(s.procs, j) && WaitOk(s.procs, k);
    FindsLive(s, j);
    FindsLive(s, k);
  }

  /** Exit hands the status to the one process blocked on the caller and queues it, once; the caller's
      slot is free; every other process is as before, up to scheduling. */
  lemma ExitHandsOff(s: State, status: int, w: Slot)
    requires Inv(s) && s.cur != IDLE && WaitForFound(s, s.cur)
    requires BlockedFor(s.procs[w], WaitProc) && s.procs[w].waitFor == s.procs[s.cur].pid
    ensures Exit(s, status).Some?
    ensures var s' := Exit(s, status).value;
            && Runnable(s'.procs[w]) && s'.procs[w].eax == status
            && w in s'.queue && Distinct(s'.queue)
            && s'.procs[s.cur].status == Free && s.cur !in s'.queue
            && forall i: Slot :: i != s.cur && i != w && s.procs[i].status != Free ==> Similar(s.procs[i], s'.procs[i])
  {
    ExitingInv(s, status);
    var t := ExitTable(s, status, w);
    ExitInv(s, status);
    ExitEffect(s, status);
    var s' := Exit(s, status).value;
    assert Similar(t[w], s'.procs[w]);
    assert SlotInv(s', w) && SlotInv(s', s.cur);
  }

  lemma ExitTable(s: State, status: int, w: Slot) returns (t: Table)
    requires Inv(s) && Inv(Exiting(s, status)) && SameFinds(s.procs, Exiting(s, status).procs)
    requires s.cur != IDLE && BlockedFor(s.procs[w], WaitProc) && s.procs[w].waitFor == s.procs[s.cur].pid
    ensures t == DeathTable(Exiting(s, status).procs, s.cur)
    ensures t[w] == s.procs[w].(eax := status, status := Ready, block := NotBlocked) && w != IDLE && w != s.cur
    ensures forall i: Slot :: i != s.cur && i != w ==> t[i] == s.procs[i]
  {
    assert WaitOk(s.procs, w);
    FindsLive(s, s.cur);
    FindsLive(s, w);
    CoreLookups(s);
    assert LookedUp(s.procs, w);
    t := DeathTable(Exiting(s, status).procs, s.cur);
  }

  /** Destroying a process that is not on the ready list, as the loader does on a bad segment, is fatal. */
  lemma DestroyUnqueuedCrashes(s: State, p: Slot)
    requires Inv(s) && p != IDLE && s.procs[p].status == Blocked
    ensures Destroy(s, p).None?
  {
    assert SlotInv(s, p);
  }

  /** Round robin: the process `k` places behind the front runs after `k` yields. */
  lemma {:induction false} RoundRobin(s: State, k: nat)
    requires Inv(s) && k < |s.queue|
    ensures Run(s, seq(k, _ => YieldOp)).Some? && Run(s, seq(k, _ => YieldOp)).value.cur == s.queue[k]
    decreases k
  {
    var ops := seq(k, _ => YieldOp);
    if k > 0 {
      ScheduleInv(s);
      var s1 := Schedule(s);
      RoundRobin(s1, k - 1);
      assert ops[1..] == seq(k - 1, _ => YieldOp);
      assert s1.queue[k - 1] == s.queue[k];
    }
  }
}
