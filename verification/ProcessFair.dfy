/** When a ready process gets its turn: kernel/pm.c moves the ready list on by one place at a timer interrupt or a
    yield, but past the next process when the current one blocks or ends. */
module ProcessFair {
  import opened Common
  import opened ProcessModel
  import opened ProcessInvariant
  import opened ProcessTimer
  import opened ProcessRuns
  import opened ProcessCrash
  import ProcessDeath

  // ---------- one step ----------

  /** By how many places the ready list moves on: pm_deactivate takes the current process off, and then pm_schedule
      puts the one behind it at the end; sys_exit schedules once more. */
  function Advance(s: State, op: Op): (r: nat)
    ensures r <= 3
  {
    match op
    case YieldOp => 1
    case TickOp => if s.procs[s.cur].status == Ready then 0 else 1
    case SleepOp(_) => 2
    case BlockFsOp => 2
    case WaitOp(pid) => if Waits(s.procs, pid) then 2 else 0
    case ReceiveOp(block) => if block && s.procs[s.cur].mailbox == [] then 2 else 0
    case KillOp => 2
    case ExitOp(_) => 3
    case _ => 0
  }

  predicate Waits(procs: Table, pid: nat) {
    var o := Find(procs, pid);
    o.Some? && procs[o.value].status != Free && procs[o.value].waitProc == 0
  }

  /** From `q` to `q'` the list has moved on by `n` places: whoever was that far back or further is that much closer
      to the front; the ones before, except the first, are behind all of these. */
  ghost predicate Moves(q: seq<Slot>, q': seq<Slot>, n: nat) {
    && (forall i | n <= i < |q| :: CloserBy(q, q', n, i))
    && (forall i | 0 < i < n && i < |q| :: Behind(q, q', n, i))
  }

  ghost predicate CloserBy(q: seq<Slot>, q': seq<Slot>, n: nat, i: nat)
    requires n <= i < |q|
  {
    i - n < |q'| && q'[i - n] == q[i]
  }

  ghost predicate Behind(q: seq<Slot>, q': seq<Slot>, n: nat, i: nat)
    requires i < |q|
  {
    exists j: nat | j < |q'| :: |q| - n <= j && q'[j] == q[i]
  }

  lemma Appended(q: seq<Slot>, more: seq<Slot>)
    ensures Moves(q, q + more, 0)
  {
  }

  lemma Rotated(q: seq<Slot>, more: seq<Slot>)
    requires q != []
    ensures Moves(q, Rotate(q + more), 1)
  {
  }

  lemma Left(q: seq<Slot>, more: seq<Slot>)
    requires |q| > 1
    ensures Moves(q, Rotate(q[1..]) + more, 2)
  {
    var q' := Rotate(q[1..]) + more;
    assert q'[|q| - 2] == q[1];
    forall i | 2 <= i < |q| ensures CloserBy(q, q', 2, i) { }
  }

  lemma Ended(q: seq<Slot>, more: seq<Slot>)
    requires |q| > 1
    ensures Moves(q, Rotate(Rotate(q[1..]) + more), 3)
  {
    var r := Rotate(q[1..]) + more;
    var q' := Rotate(r);
    assert r[|q| - 2] == q[1];
    assert q'[if |q| == 2 then |q'| - 1 else |q| - 3] == q[1];
    if |q| > 2 { assert r[0] == q[2] && q'[|q'| - 1] == q[2]; }
    forall i | 3 <= i < |q| ensures CloserBy(q, q', 3, i) { assert r[i - 2] == q[i]; }
  }

  lemma CurrentIs(s: State)
    requires Inv(s) && s.cur != IDLE
    ensures |s.queue| > 1 && Without(s.queue, s.cur) == s.queue[1..]
    ensures s.procs[s.cur].status == Running && s.procs[s.cur].wakeup == 0
  {
  }

  /** Which processes a step puts at the end of the list before it schedules, or after. */
  lemma Blocks(s: State, s1: State, reason: Reason)
    requires Inv(s) && s.cur != IDLE && s1 == s.(procs := s1.procs) && s1.procs[s.cur].status == Running
    requires Block(s1, s.cur, reason).Some?
    ensures Moves(s.queue, Block(s1, s.cur, reason).value.queue, 2)
  {
    CurrentIs(s);
    Left(s.queue, []);
    assert Rotate(s.queue[1..]) + [] == Rotate(s.queue[1..]);
  }

  lemma Enters(s: State, s': State, p: Slot)
    requires s'.queue == s.queue || s'.queue == s.queue + [p]
    ensures Moves(s.queue, s'.queue, 0)
  {
    Appended(s.queue, []);
    Appended(s.queue, [p]);
    assert s.queue + [] == s.queue;
  }

  lemma Ticks(s: State)
    requires Inv(s) && Tick(s, false).Some?
    ensures Moves(s.queue, Tick(s, false).value.queue, Advance(s, TickOp))
  {
    var more := Overdue(s.procs, s.ticks + 1, FIRST);
    WakeExact(s, false);
    assert !IsOverdue(s.procs[s.cur], s.ticks + 1);
    Appended(s.queue, more);
    Rotated(s.queue, more);
  }

  /** pm_destroy of the current process. */
  lemma Destroys(s: State) returns (more: seq<Slot>)
    requires Inv(s) && s.cur != IDLE && Destroy(s, s.cur).Some?
    ensures Destroy(s, s.cur).value.queue == Rotate(s.queue[1..]) + more && |s.queue| > 1
  {
    CurrentIs(s);
    var s1 := Deactivate(s, s.cur).value;
    assert s1.queue == Rotate(s.queue[1..]);
    var s2 := WakeWaiter(s1.(procs := s1.procs[s.cur := s1.procs[s.cur].(status := Free)]), s.cur).value;
    assert s2.queue == s1.queue || s2.queue[..|s1.queue|] == s1.queue;
    more := s2.queue[|s1.queue|..];
  }

  /** Every step moves the list on by its advance. */
  lemma StepMoves(s: State, op: Op)
    requires Inv(s) && Enabled(s, op) && Step(s, op).Some?
    ensures Moves(s.queue, Step(s, op).value.queue, Advance(s, op))
  {
    var s' := Step(s, op).value;
    match op
    case CreateOp(_) => Enters(s, s', Empty(s.procs).value);
    case ForkOp => Enters(s, s', if Empty(s.procs).Some? then Empty(s.procs).value else IDLE);
    case YieldOp => Rotated(s.queue, []); assert s.queue + [] == s.queue;
    case TickOp => Ticks(s);
    case SleepOp(_) => CurrentIs(s); Blocks(s, s, Sleeping);
    case BlockFsOp => CurrentIs(s); Blocks(s, s, WaitFs);
    case UnblockOp(p) => Enters(s, s', p);
    case WaitOp(pid) => WaitMoves(s, pid);
    case ExitOp(status) => ExitMoves(s, status);
    case KillOp => var more := Destroys(s); Left(s.queue, more);
    case SendOp(pid, _) => Enters(s, s', Find(s.procs, pid).value);
    case ReceiveOp(block) =>
      CurrentIs(s);
      if Advance(s, op) == 0 { Enters(s, s', IDLE); }
      else { Blocks(s, s.(procs := s.procs[s.cur := s.procs[s.cur].(waiting := true)]), Receiving); }
  }

  lemma WaitMoves(s: State, pid: nat)
    requires Inv(s) && s.cur != IDLE && Wait(s, pid).Some?
    ensures Moves(s.queue, Wait(s, pid).value.queue, Advance(s, WaitOp(pid)))
  {
    CurrentIs(s);
    if Waits(s.procs, pid) {
      var o := Find(s.procs, pid).value;
      var s1 := s.(procs := s.procs[o := s.procs[o].(waitProc := s.procs[s.cur].pid)]);
      Blocks(s, s1.(procs := s1.procs[s.cur := s1.procs[s.cur].(waitFor := pid, eax := 0)]), WaitProc);
    } else {
      Enters(s, Wait(s, pid).value, IDLE);
    }
  }

  lemma ExitMoves(s: State, status: int)
    requires Inv(s) && s.cur != IDLE && Exit(s, status).Some?
    ensures Moves(s.queue, Exit(s, status).value.queue, 3)
  {
    ProcessDeath.ExitingInv(s, status);
    var more := Destroys(ProcessDeath.Exiting(s, status));
    Ended(s.queue, more);
  }

  // ---------- runs ----------

  /** The states of a run, up to a crash. */
  function Trace(s: State, ops: seq<Op>): (r: seq<State>)
    ensures r != [] && r[0] == s
    decreases ops
  {
    [s] + if ops == [] then [] else match Step(s, ops[0]) case None => [] case Some(s1) => Trace(s1, ops[1..])
  }

  /** How far each step of it moves the list on. */
  function Advances(s: State, ops: seq<Op>): (r: seq<nat>)
    decreases ops
  {
    if ops == [] then []
    else match Step(s, ops[0]) case None => [] case Some(s1) => [Advance(s, ops[0])] + Advances(s1, ops[1..])
  }

  lemma {:induction false} TraceIs(s: State, ops: seq<Op>, n: nat)
    requires Run(s, ops).Some? && n <= |ops|
    ensures |Trace(s, ops)| == |ops| + 1 && |Advances(s, ops)| == |ops| && Run(s, ops[..n]) == Some(Trace(s, ops)[n])
    decreases ops
  {
    if ops != [] {
      TraceIs(Step(s, ops[0]).value, ops[1..], if n == 0 then 0 else n - 1);
      if n > 0 { assert ops[..n][1..] == ops[1..][..n - 1]; }
    }
  }

  /** What becomes of a process on the list: it is current after `n` steps, it is passed over by step `n`, or it is
      still waiting at a place. */
  datatype Fate = Current(n: nat) | PassedOver(n: nat) | Waiting(place: nat)

  function Fated(advances: seq<nat>, k: nat): Fate {
    if k == 0 then Current(0)
    else if advances == [] then Waiting(k)
    else if advances[0] > k then PassedOver(0)
    else match Fated(advances[1..], k - advances[0])
      case Current(n) => Current(n + 1)
      case PassedOver(n) => PassedOver(n + 1)
      case Waiting(place) => Waiting(place)
  }

  /** A step takes process `p` from some place on the list to behind everybody who was waiting behind it. */
  ghost predicate PassedBy(q: seq<Slot>, q': seq<Slot>, n: nat, p: Slot) {
    exists i: nat | i < |q| :: 0 < i < n && q[i] == p && Behind(q, q', n, i)
  }

  /** The list of each state is the list before, moved on, with the current process in front. */
  ghost predicate MovesOn(tr: seq<State>, advances: seq<nat>) {
    && |tr| == |advances| + 1
    && (forall n | 0 <= n < |tr| :: FrontIsCurrent(tr[n]))
    && (forall n | 0 <= n < |advances| :: Moves(tr[n].queue, tr[n + 1].queue, advances[n]))
  }

  ghost predicate FrontIsCurrent(s: State) { s.queue != [] && s.queue[0] == s.cur && Distinct(s.queue) }

  lemma {:induction false} RunMovesOn(s: State, ops: seq<Op>)
    requires Inv(s) && Possible(s, ops) && Run(s, ops).Some?
    ensures MovesOn(Trace(s, ops), Advances(s, ops)) && |Advances(s, ops)| == |ops|
    decreases ops
  {
    if ops != [] {
      var s1 := Step(s, ops[0]).value;
      StepMoves(s, ops[0]);
      StepInv(s, ops[0]);
      RunMovesOn(s1, ops[1..]);
      Unfolded(s, ops, s1, ops[1..]);
    }
  }

  /** The fate has been met, and before that the process has not been current. */
  ghost predicate Met(tr: seq<State>, advances: seq<nat>, p: Slot, fate: Fate)
    requires |tr| == |advances| + 1
  {
    && (forall m | 0 <= m < |tr| && (fate.Waiting? || (fate.Current? && m < fate.n) || (fate.PassedOver? && m <= fate.n)) ::
          tr[m].cur != p)
    && match fate
    case Current(n) => n < |tr| && tr[n].cur == p
    case PassedOver(n) => n < |advances| && PassedBy(tr[n].queue, tr[n + 1].queue, advances[n], p)
    case Waiting(place) => var last := |tr| - 1; 0 < place < |tr[last].queue| && tr[last].queue[place] == p
  }

  lemma {:induction false} FateOnTrace(tr: seq<State>, advances: seq<nat>, k: nat)
    requires MovesOn(tr, advances) && k < |tr[0].queue|
    ensures Met(tr, advances, tr[0].queue[k], Fated(advances, k))
    decreases advances
  {
    assert FrontIsCurrent(tr[0]);
    if k > 0 && advances != [] {
      assert Moves(tr[0].queue, tr[1].queue, advances[0]);
      if advances[0] > k {
        assert Behind(tr[0].queue, tr[1].queue, advances[0], k);
      } else {
        assert CloserBy(tr[0].queue, tr[1].queue, advances[0], k);
        FateOnTrace(tr[1..], advances[1..], k - advances[0]);
      }
    }
  }

  /** In every run the process at place `k` meets its fate. */
  lemma MeetsFate(s: State, ops: seq<Op>, k: nat)
    requires Inv(s) && Possible(s, ops) && Run(s, ops).Some? && k < |s.queue|
    ensures var (tr, advances) := (Trace(s, ops), Advances(s, ops));
            |tr| == |advances| + 1 == |ops| + 1 && Met(tr, advances, s.queue[k], Fated(advances, k))
  {
    RunMovesOn(s, ops);
    FateOnTrace(Trace(s, ops), Advances(s, ops), k);
  }

  lemma Unfolded(s: State, ops: seq<Op>, s1: State, rest: seq<Op>)
    requires ops != [] && rest == ops[1..] && Step(s, ops[0]) == Some(s1)
    ensures Trace(s, ops) == [s] + Trace(s1, rest) && Advances(s, ops) == [Advance(s, ops[0])] + Advances(s1, rest)
  {
  }

  function Sum(a: seq<nat>): nat {
    if a == [] then 0 else a[0] + Sum(a[1..])
  }

  /** The process at place `k` gets its turn exactly if at some point the list has moved on by `k` places since, and
      it is still waiting exactly if the list has moved on by less in all. */
  lemma {:induction false} TurnIff(advances: seq<nat>, k: nat)
    ensures Fated(advances, k).Current? <==> exists n: nat | n <= |advances| :: Sum(advances[..n]) == k
    ensures Fated(advances, k).Waiting? <==> Sum(advances) < k
  {
    assert Sum(advances[..0]) == 0;
    if k > 0 && advances != [] {
      var adv, rest := advances[0], advances[1..];
      forall n: nat | n < |advances| ensures Sum(advances[..n + 1]) == adv + Sum(rest[..n]) {
        assert advances[..n + 1][1..] == rest[..n];
      }
      if adv <= k {
        TurnIff(rest, k - adv);
        if Fated(advances, k).Current? {
          var n: nat :| n <= |rest| && Sum(rest[..n]) == k - adv;
          assert Sum(advances[..n + 1]) == k;
        } else {
          forall n: nat | n <= |advances| ensures Sum(advances[..n]) != k {
            if n > 0 { assert Sum(advances[..n - 1 + 1]) == adv + Sum(rest[..n - 1]); }
          }
        }
      } else {
        forall n: nat | n <= |advances| ensures Sum(advances[..n]) != k {
          if n > 0 { assert Sum(advances[..n - 1 + 1]) == adv + Sum(rest[..n - 1]); }
        }
      }
    }
  }

  /** So in a run in which nobody blocks or ends, every process on the list gets its turn: the one at place `k` when
      the list has moved on `k` times. */
  lemma FairIfSingle(s: State, ops: seq<Op>, k: nat)
    requires Inv(s) && Possible(s, ops) && Run(s, ops).Some? && k < |s.queue|
    requires forall a | a in Advances(s, ops) :: a <= 1
    requires k <= Sum(Advances(s, ops))
    ensures var f := Fated(Advances(s, ops), k);
            f.Current? && f.n <= |ops| && Run(s, ops[..f.n]).Some? && Run(s, ops[..f.n]).value.cur == s.queue[k]
  {
    MeetsFate(s, ops, k);
    SinglesHit(Advances(s, ops), k);
    TraceIs(s, ops, Fated(Advances(s, ops), k).n);
  }

  lemma {:induction false} SinglesHit(advances: seq<nat>, k: nat)
    requires (forall a | a in advances :: a <= 1) && k <= Sum(advances)
    ensures Fated(advances, k).Current?
  {
    if k > 0 && advances != [] {
      var rest := advances[1..];
      assert advances[0] in advances;
      forall a | a in rest ensures a <= 1 { assert a in advances; }
      SinglesHit(rest, k - advances[0]);
    }
  }

  // ---------- a process that never gets its turn ----------

  /** In every state of the run process `p` is ready and not current. */
  ghost predicate Starved(tr: seq<State>, p: Slot) {
    forall i | 0 <= i < |tr| :: Hungry(tr[i], p)
  }

  predicate Hungry(s: State, p: Slot) { s.procs[p].status == Ready && s.cur != p }

  /** The kernel takes the steps `ops` through the states `tr`. */
  ghost predicate Course(tr: seq<State>, ops: seq<Op>) {
    |tr| == |ops| + 1 && forall i | 0 <= i < |ops| :: Goes(tr[i], ops[i], tr[i + 1])
  }

  ghost predicate Goes(s: State, op: Op, s': State) { Enabled(s, op) && Step(s, op) == Some(s') }

  lemma CourseJoin(tr: seq<State>, ops: seq<Op>, tr': seq<State>, more: seq<Op>)
    requires Course(tr, ops) && Course(tr', more) && tr[|ops|] == tr'[0]
    ensures Course(tr[..|ops|] + tr', ops + more)
  {
    var all, steps := tr[..|ops|] + tr', ops + more;
    forall i | 0 <= i < |steps| ensures Goes(all[i], steps[i], all[i + 1]) {
      if i < |ops| {
        assert Goes(tr[i], ops[i], tr[i + 1]);
      } else {
        assert Goes(tr'[i - |ops|], more[i - |ops|], tr'[i - |ops| + 1]);
      }
    }
  }

  /** Such a course is a run the kernel takes and survives, and its states are the states of that run. */
  lemma {:induction false} CourseRuns(tr: seq<State>, ops: seq<Op>)
    requires Course(tr, ops)
    ensures Possible(tr[0], ops) && Run(tr[0], ops) == Some(tr[|ops|]) && Trace(tr[0], ops) == tr
    decreases ops
  {
    if ops != [] {
      assert Goes(tr[0], ops[0], tr[1]);
      assert Course(tr[1..], ops[1..]) by {
        forall i | 0 <= i < |ops| - 1 ensures Goes(tr[1..][i], ops[1..][i], tr[1..][i + 1]) {
          assert Goes(tr[i + 1], ops[i + 1], tr[i + 2]);
        }
      }
      CourseRuns(tr[1..], ops[1..]);
      assert tr == [tr[0]] + tr[1..];
    }
  }

  /** Process `a` runs, `b` is behind it, and `c` waits for a message. */
  ghost predicate PingPong(s: State, a: Slot, b: Slot, c: Slot) {
    && Inv(s) && s.queue == [a, b, IDLE] && a != IDLE && b != IDLE && c !in s.queue
    && BlockedFor(s.procs[c], Receiving) && s.procs[a].mailbox == [] && Awake(s.procs)
  }

  ghost predicate Awake(procs: Table) { forall i: Slot :: procs[i].wakeup == 0 }

  /** One message to `c`, whose answer the sender waits for. */
  function Call(to: nat, msg: Msg): seq<Op> { [SendOp(to, msg), ReceiveOp(true), TickOp] }

  /** Process `c` is on the list as well, served. */
  ghost predicate Served(s: State, a: Slot, b: Slot, c: Slot) {
    && Inv(s) && s.queue == [a, b, IDLE, c] && a != IDLE && b != IDLE && c != IDLE
    && s.procs[a].mailbox == [] && s.procs[c].mailbox == [] && Awake(s.procs)
  }

  /** Process `a` waits for the answer. */
  ghost predicate Paused(s: State, a: Slot, b: Slot, c: Slot) {
    && Inv(s) && s.queue == [IDLE, c, b] && b != IDLE && c != IDLE && s.procs[IDLE].status == Running
    && BlockedFor(s.procs[a], Receiving) && s.procs[c].mailbox == [] && Awake(s.procs)
  }

  ghost predicate SamePids(procs: Table, procs': Table) { forall i: Slot :: procs'[i].pid == procs[i].pid }

  lemma Sends(s: State, a: Slot, b: Slot, c: Slot, msg: Msg) returns (s1: State)
    requires PingPong(s, a, b, c)
    ensures Enabled(s, SendOp(s.procs[c].pid, msg)) && Step(s, SendOp(s.procs[c].pid, msg)) == Some(s1)
    ensures Served(s1, a, b, c) && SamePids(s.procs, s1.procs)
  {
    var op := SendOp(s.procs[c].pid, msg);
    FindsLive(s, c);
    assert MailOk(s.procs[c]);
    StepInv(s, op);
    s1 := Send(s, c, msg);
    ServedRecords(s, c, msg);
    assert s.queue + [c] == [a, b, IDLE, c];
  }

  lemma ServedRecords(s: State, c: Slot, msg: Msg)
    requires BlockedFor(s.procs[c], Receiving) && MailOk(s.procs[c])
    ensures var s1 := Send(s, c, msg);
            && s1.queue == s.queue + [c] && SamePids(s.procs, s1.procs)
            && forall i: Slot :: s1.procs[i].wakeup == s.procs[i].wakeup && s1.procs[i].mailbox == s.procs[i].mailbox
  {
    var s1 := Send(s, c, msg);
    assert s1.procs[c].mailbox == [];
  }

  lemma Receives(s: State, a: Slot, b: Slot, c: Slot) returns (s1: State)
    requires Served(s, a, b, c)
    ensures Enabled(s, ReceiveOp(true)) && Step(s, ReceiveOp(true)) == Some(s1)
    ensures Paused(s1, a, b, c) && SamePids(s.procs, s1.procs)
  {
    CurrentIs(s);
    StepInv(s, ReceiveOp(true));
    s1 := Receive(s, true).value;
    assert s.queue[1..] == [b, IDLE, c] && Rotate([b, IDLE, c]) == [IDLE, c, b];
    BlockedRecord(s, s1, a);
  }

  lemma BlockedRecord(s: State, s1: State, a: Slot)
    requires Inv(s) && s.cur == a && a != IDLE && s.procs[a].mailbox == [] && Receive(s, true) == Some(s1)
    ensures BlockedFor(s1.procs[a], Receiving) && SamePids(s.procs, s1.procs)
    ensures forall i: Slot :: s1.procs[i].wakeup == s.procs[i].wakeup && s1.procs[i].mailbox == s.procs[i].mailbox
    ensures s1.procs[s1.cur].status == Running
  {
    CurrentIs(s);
    assert Rotate(s.queue[1..])[0] in s.queue[1..];
  }

  /** With nobody asleep a timer interrupt only schedules. */
  lemma Turns(s: State) returns (s1: State)
    requires Inv(s) && Awake(s.procs) && s.procs[s.cur].status != Ready
    ensures Step(s, TickOp) == Some(s1) && Inv(s1) && s1.queue == Rotate(s.queue)
    ensures forall i: Slot :: Similar(s.procs[i], s1.procs[i])
  {
    StepInv(s, TickOp);
    WakeExact(s, false);
    var w := Wake(s, false);
    OverdueNone(s.procs, s.ticks + 1, FIRST);
    assert s.queue + [] == s.queue;
    assert w.procs == s.procs;
    WakeInv(s);
    ScheduleQueue(w);
    s1 := Schedule(w);
  }

  lemma Resumes(s: State, a: Slot, b: Slot, c: Slot) returns (s1: State)
    requires Paused(s, a, b, c)
    ensures Step(s, TickOp) == Some(s1) && PingPong(s1, c, b, a) && SamePids(s.procs, s1.procs)
  {
    s1 := Turns(s);
    assert Rotate([IDLE, c, b]) == [c, b, IDLE];
    forall i: Slot ensures s1.procs[i] == s.procs[i].(status := s1.procs[i].status) { assert Similar(s.procs[i], s1.procs[i]); }
    assert SlotInv(s1, a) && Similar(s.procs[a], s1.procs[a]);
  }

  lemma ReadyBehind(s: State, p: Slot)
    requires Inv(s) && p in s.queue && p != IDLE && p != s.queue[0]
    ensures Hungry(s, p)
  {
    assert SlotInv(s, p);
  }

  lemma ReadyAll(s: State, s1: State, s2: State, s3: State, a: Slot, b: Slot, c: Slot)
    requires PingPong(s, a, b, c) && Served(s1, a, b, c) && Paused(s2, a, b, c) && PingPong(s3, c, b, a)
    ensures Hungry(s, b) && Hungry(s1, b) && Hungry(s2, b) && Hungry(s3, b)
  {
    assert s.queue[1] == b && s1.queue[1] == b && s2.queue[2] == b && s3.queue[1] == b;
    ReadyBehind(s, b);
    ReadyBehind(s1, b);
    ReadyBehind(s2, b);
    ReadyBehind(s3, b);
  }

  /** After one message and the wait for the answer the other two have changed places, and `b` has not run. */
  lemma PingPongs(s: State, a: Slot, b: Slot, c: Slot, msg: Msg) returns (tr: seq<State>)
    requires PingPong(s, a, b, c)
    ensures Course(tr, Call(s.procs[c].pid, msg)) && tr[0] == s && Starved(tr, b)
    ensures PingPong(tr[3], c, b, a) && SamePids(s.procs, tr[3].procs)
  {
    var s1 := Sends(s, a, b, c, msg);
    var s2 := Receives(s1, a, b, c);
    var s3 := Resumes(s2, a, b, c);
    tr := [s, s1, s2, s3];
    ReadyAll(s, s1, s2, s3, a, b, c);
    assert Goes(s, SendOp(s.procs[c].pid, msg), s1) && Goes(s1, ReceiveOp(true), s2) && Goes(s2, TickOp, s3);
  }

  /** So many messages back and forth. */
  function Calls(to: nat, back: nat, msg: Msg, n: nat): seq<Op>
    decreases n
  {
    if n == 0 then [] else Call(to, msg) + Calls(back, to, msg, n - 1)
  }

  /** Two processes that call each other keep a third one from running for as long as they like. */
  lemma {:induction false} CallsStarve(s: State, a: Slot, b: Slot, c: Slot, msg: Msg, n: nat) returns (tr: seq<State>)
    requires PingPong(s, a, b, c)
    ensures Course(tr, Calls(s.procs[c].pid, s.procs[a].pid, msg, n)) && tr[0] == s && Starved(tr, b)
    decreases n
  {
    if n == 0 {
      assert s.queue[1] == b;
      ReadyBehind(s, b);
      tr := [s];
    } else {
      var first := PingPongs(s, a, b, c, msg);
      var rest := CallsStarve(first[3], c, b, a, msg, n - 1);
      CourseJoin(first, Call(s.procs[c].pid, msg), rest, Calls(s.procs[a].pid, s.procs[c].pid, msg, n - 1));
      tr := first[..3] + rest;
    }
  }

  // ---------- from boot ----------

  ghost predicate Reaches(ops: seq<Op>, s: State) {
    Possible(Boot(), ops) && Run(Boot(), ops) == Some(s)
  }

  lemma ReachesNext(ops: seq<Op>, s: State, op: Op, s1: State)
    requires Reaches(ops, s) && Enabled(s, op) && Step(s, op) == Some(s1)
    ensures Reaches(ops + [op], s1)
  {
    assert [op][1..] == [];
    assert Run(s1, []) == Some(s1) && Possible(s1, []);
    assert Possible(s, [op]) && Run(s, [op]) == Some(s1);
    RunConcat(Boot(), ops, [op]);
  }

  /** Each slot still has its first pid, and nobody sleeps or has mail. */
  ghost predicate Untouched(s: State) {
    Inv(s) && forall i: Slot :: s.procs[i].pid == i && s.procs[i].wakeup == 0 && s.procs[i].mailbox == []
  }

  /** The first `n` slots are in use. */
  ghost predicate Begun(s: State, n: nat) {
    && Untouched(s) && s.cur == IDLE && s.nextPid == n && 0 < n < MAX_PROCS && s.procs[IDLE].status == Blocked
    && forall i: Slot :: s.procs[i].status == Free <==> i >= n
  }

  lemma Creates(ops: seq<Op>, s: State, n: nat) returns (s1: State)
    requires Reaches(ops, s) && Begun(s, n) && n + 1 < MAX_PROCS
    ensures Reaches(ops + [CreateOp(true)], s1) && Begun(s1, n + 1) && s1.queue == s.queue + [n]
  {
    s1 := Born(s, n, Ready);
    CreateIs(s, n, s1);
    BornBegun(s, n, s1);
    ReachesNext(ops, s, CreateOp(true), s1);
  }

  lemma CreateIs(s: State, n: nat, s1: State)
    requires Begun(s, n) && n + 1 < MAX_PROCS && s1 == Born(s, n, Ready)
    ensures Enabled(s, CreateOp(true)) && Step(s, CreateOp(true)) == Some(s1) && Inv(s1)
  {
    EmptyIs(s.procs, n);
    StepInv(s, CreateOp(true));
  }

  lemma BornBegun(s: State, n: nat, s1: State)
    requires Begun(s, n) && n + 1 < MAX_PROCS && s1 == Born(s, n, Ready) && Inv(s1)
    ensures Begun(s1, n + 1) && s1.queue == s.queue + [n]
  {
    assert s1.procs == s.procs[n := NewProc(n, Ready)];
  }

  lemma BootBegun()
    ensures Begun(Boot(), 1) && Reaches([], Boot()) && Boot().queue == [0]
  {
    BootInv();
  }

  /** A timer interrupt moves the list on by one. */
  lemma TurnsUntouched(ops: seq<Op>, s: State) returns (s1: State)
    requires Reaches(ops, s) && Untouched(s) && s.procs[s.cur].status != Ready
    ensures Reaches(ops + [TickOp], s1) && Untouched(s1) && s1.queue == Rotate(s.queue)
  {
    s1 := Turns(s);
    ReachesNext(ops, s, TickOp, s1);
    forall i: Slot ensures s1.procs[i] == s.procs[i].(status := s1.procs[i].status) { assert Similar(s.procs[i], s1.procs[i]); }
  }

  /** The current process waits for a message. */
  lemma ReceivesUntouched(ops: seq<Op>, s: State) returns (s1: State)
    requires Reaches(ops, s) && Untouched(s) && s.cur != IDLE
    ensures |s.queue| > 1 && Reaches(ops + [ReceiveOp(true)], s1) && Untouched(s1) && s1.queue == Rotate(s.queue[1..])
    ensures BlockedFor(s1.procs[s.cur], Receiving)
  {
    CurrentIs(s);
    StepInv(s, ReceiveOp(true));
    s1 := Receive(s, true).value;
    BlockedRecord(s, s1, s.cur);
    ReachesNext(ops, s, ReceiveOp(true), s1);
  }

  const THREE: seq<Op> := [CreateOp(true), CreateOp(true), CreateOp(true)]
  const SETUP: seq<Op> := THREE + [TickOp, TickOp, TickOp, ReceiveOp(true)]

  lemma ThreeCreated() returns (s: State)
    ensures Reaches(THREE, s) && Untouched(s) && s.queue == [0, 1, 2, 3] && s.procs[s.cur].status == Blocked
  {
    var b := Boot();
    BootBegun();
    var s1 := Creates([], b, 1);
    var s2 := Creates([] + [CreateOp(true)], s1, 2);
    s := Creates([] + [CreateOp(true)] + [CreateOp(true)], s2, 3);
    assert [] + [CreateOp(true)] + [CreateOp(true)] + [CreateOp(true)] == THREE;
    assert [0] + [1] + [2] + [3] == [0, 1, 2, 3];
  }

  lemma ThreeTurned() returns (s: State)
    ensures Reaches(THREE + [TickOp] + [TickOp] + [TickOp], s) && Untouched(s) && s.queue == [3, 0, 1, 2]
  {
    var s0 := ThreeCreated();
    var s1 := TurnsUntouched(THREE, s0);
    assert s1.queue == [1, 2, 3, 0];
    var s2 := TurnsUntouched(THREE + [TickOp], s1);
    assert s2.queue == [2, 3, 0, 1];
    s := TurnsUntouched(THREE + [TickOp] + [TickOp], s2);
  }

  /** Three processes are created and each gets a turn; the third waits for a message. */
  lemma PingPongReached() returns (s: State)
    ensures Reaches(SETUP, s) && PingPong(s, 1, 2, 3) && s.procs[1].pid == 1 && s.procs[3].pid == 3
  {
    var s3 := ThreeTurned();
    s := ReceivesUntouched(THREE + [TickOp] + [TickOp] + [TickOp], s3);
    assert s3.queue[1..] == [0, 1, 2] && Rotate([0, 1, 2]) == [1, 2, 0];
    assert THREE + [TickOp] + [TickOp] + [TickOp] + [ReceiveOp(true)] == SETUP;
  }

  /** From there on the first and the third process can call each other any number of times, and all the while the
      second one is ready and does not run. */
  lemma StarvedForGood(msg: Msg, n: nat)
    ensures var ops := Calls(3, 1, msg, n);
            && Possible(Boot(), SETUP + ops) && Run(Boot(), SETUP + ops).Some?
            && Run(Boot(), SETUP).Some? && Starved(Trace(Run(Boot(), SETUP).value, ops), 2)
  {
    var s := PingPongReached();
    var tr := CallsStarve(s, 1, 2, 3, msg, n);
    CourseRuns(tr, Calls(3, 1, msg, n));
    RunConcat(Boot(), SETUP, Calls(3, 1, msg, n));
  }
}
