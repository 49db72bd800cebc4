/** What every step of the process core keeps. */
module ProcessInvariant {
  import opened Common
  import opened ProcessModel

  predicate Runnable(p: Proc) { p.status == Ready || p.status == Running }

  predicate BlockedFor(p: Proc, r: Reason) { p.status == Blocked && p.block == r }

  /** The ready list holds each runnable process once, with the current one in front. */
  ghost predicate QueueInv(s: State) {
    && Distinct(s.queue)
    && s.queue != [] && s.queue[0] == s.cur
    && IDLE in s.queue
    && s.procs[IDLE].status != Free && s.procs[IDLE].block == Init
    && (s.cur != IDLE ==> s.procs[s.cur].status == Running)
    && forall i: Slot :: SlotInv(s, i)
  }

  ghost predicate SlotInv(s: State, i: Slot) {
    && (i != IDLE ==> (i in s.queue <==> Runnable(s.procs[i])))
    && (i != IDLE && Runnable(s.procs[i]) ==> s.procs[i].block == NotBlocked)
    && (s.procs[i].status == Running ==> i == s.cur)
  }

  /** The first `used` slots have been in use and hold different pids; the others are as booted. */
  ghost predicate PidInv(procs: Table, nextPid: nat, used: nat) {
    && 0 < used <= MAX_PROCS
    && procs[IDLE].pid == 0
    && (forall i: Slot | i < used :: procs[i].pid < nextPid)
    && (forall i: Slot, j: Slot | i < j < used :: procs[i].pid != procs[j].pid)
    && (forall i: Slot | i >= used :: procs[i].pid == i && procs[i].status == Free)
  }

  /** A live process with a waiter has it blocked on it; a process blocked on another is its waiter. */
  ghost predicate WaitInv(procs: Table) {
    forall i: Slot :: WaitOk(procs, i)
  }

  ghost predicate WaitOk(procs: Table, i: Slot) {
    HasWaiter(procs, i) && HasTarget(procs, i)
  }

  ghost predicate HasWaiter(procs: Table, i: Slot) {
    procs[i].status != Free && procs[i].waitProc != 0 ==>
      var w := Find(procs, procs[i].waitProc);
      w.Some? && BlockedFor(procs[w.value], WaitProc) && procs[w.value].waitFor == procs[i].pid
  }

  ghost predicate HasTarget(procs: Table, i: Slot) {
    BlockedFor(procs[i], WaitProc) ==>
      var o := Find(procs, procs[i].waitFor);
      o.Some? && procs[o.value].status != Free && procs[o.value].waitProc == procs[i].pid
  }

  /** A pending wake-up belongs to a sleeper and is not earlier than the cached minimum. */
  ghost predicate SleepInv(s: State) {
    forall i: Slot :: s.procs[i].wakeup != 0 ==>
      BlockedFor(s.procs[i], Sleeping) && s.nextWakeup <= s.procs[i].wakeup < WORD
  }

  /** A process blocked for receiving has an empty mailbox and a buffer to receive into. */
  ghost predicate MailOk(p: Proc) {
    && |p.mailbox| <= MAILBOX
    && (BlockedFor(p, Receiving) ==> p.mailbox == [] && p.waiting)
    && (p.status != Free && p.waiting ==> BlockedFor(p, Receiving))
  }

  ghost predicate MailInv(procs: Table) {
    forall i: Slot :: MailOk(procs[i])
  }

  /** The invariant without the timer. */
  ghost predicate Core(s: State) {
    && QueueInv(s)
    && WaitInv(s.procs)
    && MailInv(s.procs)
    && exists used: nat :: PidInv(s.procs, s.nextPid, used)
  }

  ghost predicate Inv(s: State) {
    Core(s) && SleepInv(s)
  }

  // ---------- lookups ----------

  lemma {:induction false} FindFromSame(procs: Table, procs': Table, pid: nat, i: nat)
    requires i <= MAX_PROCS && forall j: Slot :: procs'[j].pid == procs[j].pid
    ensures FindFrom(procs', pid, i) == FindFrom(procs, pid, i)
    decreases MAX_PROCS - i
  {
    if i < MAX_PROCS && procs[i].pid != pid { FindFromSame(procs, procs', pid, i + 1); }
  }

  lemma FindSame(procs: Table, procs': Table)
    requires forall j: Slot :: procs'[j].pid == procs[j].pid
    ensures forall pid: nat :: Find(procs', pid) == Find(procs, pid)
  {
    forall pid: nat ensures Find(procs', pid) == Find(procs, pid) { FindFromSame(procs, procs', pid, FIRST); }
  }

  /** pm_get_proc finds every live process by its pid, whatever the free slots still hold. */
  lemma FindsLive(s: State, i: Slot)
    requires Core(s) && s.procs[i].status != Free
    ensures Find(s.procs, s.procs[i].pid) == Some(i)
  {
    var used: nat :| PidInv(s.procs, s.nextPid, used);
    assert i < used;
    FindIs(s.procs, s.procs[i].pid, i);
  }

  lemma FindIs(procs: Table, pid: nat, i: Slot)
    requires procs[i].pid == pid && forall j: Slot | j < i :: procs[j].pid != pid
    ensures Find(procs, pid) == Some(i)
  {
    var f := Find(procs, pid);
    assert procs[i].pid == pid;
    assert f.Some? && f.value <= i;
  }

  // ---------- changes that leave most of the invariant alone ----------

  /** `p'` is `p` up to scheduling: ready and running are interchangeable. */
  predicate Similar(p: Proc, p': Proc) {
    && p' == p.(status := p'.status)
    && (p'.status == Free <==> p.status == Free)
    && (p.block != Init ==> (p'.status == Blocked <==> p.status == Blocked))
  }

  lemma SimilarKeeps(s: State, s': State)
    requires WaitInv(s.procs) && SleepInv(s) && MailInv(s.procs)
    requires s'.nextWakeup <= s.nextWakeup
    requires forall i: Slot :: Similar(s.procs[i], s'.procs[i])
    ensures WaitInv(s'.procs) && SleepInv(s') && MailInv(s'.procs)
  {
    FindSame(s.procs, s'.procs);
    forall i: Slot ensures WaitOk(s'.procs, i) { assert WaitOk(s.procs, i) && Similar(s.procs[i], s'.procs[i]); }
    forall i: Slot ensures MailOk(s'.procs[i]) { assert MailOk(s.procs[i]) && Similar(s.procs[i], s'.procs[i]); }
  }

  lemma SimilarPids(procs: Table, procs': Table, nextPid: nat, used: nat)
    requires PidInv(procs, nextPid, used)
    requires forall i: Slot :: procs'[i].pid == procs[i].pid && (procs[i].status == Free ==> procs'[i].status == Free)
    ensures PidInv(procs', nextPid, used)
  {
  }

  lemma QueueSame(s: State, s': State)
    requires QueueInv(s) && s'.procs == s.procs && s'.queue == s.queue && s'.cur == s.cur
    ensures QueueInv(s')
  {
    forall i: Slot ensures SlotInv(s', i) { assert SlotInv(s, i); }
  }

  // ---------- scheduling ----------

  lemma RotateFacts(q: seq<Slot>)
    requires q != [] && Distinct(q)
    ensures Distinct(Rotate(q)) && forall x: Slot :: x in Rotate(q) <==> x in q
  {
    var r := Rotate(q);
    assert q == [q[0]] + q[1..];
    forall j, k | 0 <= j < k < |r| ensures r[j] != r[k] {
      assert r[j] == q[j + 1];
    }
  }

  /** pm_schedule when the current process may have left the list. */
  lemma ScheduleQueue(s: State)
    requires s.queue != [] && Distinct(s.queue) && IDLE in s.queue
    requires s.procs[IDLE].status != Free && s.procs[IDLE].block == Init
    requires forall i: Slot :: SlotInv(s, i)
    requires s.cur != IDLE && Runnable(s.procs[s.cur]) ==> s.cur in s.queue
    ensures QueueInv(Schedule(s))
    ensures forall i: Slot :: Similar(s.procs[i], Schedule(s).procs[i])
  {
    RotateFacts(s.queue);
    var s' := Schedule(s);
    assert s'.queue[0] in s.queue;
    assert SlotInv(s, s'.queue[0]);
    forall i: Slot ensures SlotInv(s', i) && Similar(s.procs[i], s'.procs[i]) {
      assert SlotInv(s, i);
    }
  }

  lemma ScheduleInv(s: State)
    requires Inv(s)
    ensures Inv(Schedule(s))
  {
    ScheduleQueue(s);
    SimilarKeeps(s, Schedule(s));
    var used: nat :| PidInv(s.procs, s.nextPid, used);
    SimilarPids(s.procs, Schedule(s).procs, s.nextPid, used);
  }
}
