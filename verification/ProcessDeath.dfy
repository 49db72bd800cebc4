/** Waiting for a process and its exit: the hand-off keeps the invariant. */
module ProcessDeath {
  import opened Common
  import opened ProcessModel
  import opened ProcessInvariant
  import opened ProcessSteps

  /** Every live process is found by its pid, and only the idle process has pid 0. */
  ghost predicate Lookups(procs: Table) {
    forall i: Slot :: LookedUp(procs, i)
  }

  ghost predicate LookedUp(procs: Table, i: Slot) {
    && (procs[i].status != Free ==> Find(procs, procs[i].pid) == Some(i))
    && (BlockedFor(procs[i], WaitProc) || (Runnable(procs[i]) && i != IDLE) ==> procs[i].pid != 0)
  }

  lemma CoreLookups(s: State)
    requires Core(s)
    ensures Lookups(s.procs)
  {
    forall i: Slot ensures LookedUp(s.procs, i) {
      if s.procs[i].status != Free { FindsLive(s, i); }
      if i != IDLE && s.procs[i].status != Free { FindsLive(s, IDLE); }
      assert SlotInv(s, i);
    }
  }

  // ---------- sys_waitpid ----------

  /** The records after process `c` began to wait for process `o`. */
  function WaitTable(procs: Table, c: Slot, o: Slot): Table {
    var t: Table := procs[o := procs[o].(waitProc := procs[c].pid)];
    t[c := t[c].(waitFor := procs[o].pid, eax := 0, status := Blocked, block := WaitProc)]
  }

  /** Two tables in which pids are found in the same slots. */
  ghost predicate SameFinds(procs: Table, procs': Table) {
    forall pid: nat :: Find(procs', pid) == Find(procs, pid)
  }

  lemma WaitTableWaiter(procs: Table, c: Slot, o: Slot, i: Slot)
    requires HasWaiter(procs, i) && LookedUp(procs, c) && procs[c].status == Running
    requires SameFinds(procs, WaitTable(procs, c, o))
    ensures HasWaiter(WaitTable(procs, c, o), i)
  {
  }

  lemma WaitTableTarget(procs: Table, c: Slot, o: Slot, i: Slot)
    requires HasTarget(procs, i) && LookedUp(procs, i) && LookedUp(procs, o)
    requires procs[o].status != Free && procs[o].waitProc == 0
    requires SameFinds(procs, WaitTable(procs, c, o))
    ensures HasTarget(WaitTable(procs, c, o), i)
  {
  }

  lemma WaitTableInv(procs: Table, c: Slot, o: Slot)
    requires WaitInv(procs) && Lookups(procs)
    requires procs[o].status != Free && procs[o].waitProc == 0
    requires procs[c].status == Running && c != IDLE
    ensures WaitInv(WaitTable(procs, c, o))
  {
    var t := WaitTable(procs, c, o);
    FindSame(procs, t);
    assert LookedUp(procs, c) && LookedUp(procs, o);
    forall i: Slot ensures WaitOk(t, i) {
      assert WaitOk(procs, i) && LookedUp(procs, i);
      WaitTableWaiter(procs, c, o, i);
      WaitTableTarget(procs, c, o, i);
    }
  }

  lemma WaitStepInv(s: State, pid: nat)
    requires Inv(s) && s.cur != IDLE && Find(s.procs, pid).Some?
    ensures Wait(s, pid).Some? && Inv(Wait(s, pid).value)
  {
    var o := Find(s.procs, pid).value;
    if s.procs[o].status == Free || s.procs[o].waitProc != 0 {
      SetEaxInv(s, s.cur, -1);
    } else {
      var c := s.cur;
      var s1 := s.(procs := s.procs[o := s.procs[o].(waitProc := s.procs[c].pid)]);
      RewriteRecord(s, o, s1.procs[o]);
      var t := WaitTable(s.procs, c, o);
      LeaveQueue(s1, t[c], t[c]);
      assert s1.procs[c := t[c]] == t;
      var s' := Deactivate(s1.(procs := t), c).value;
      assert Wait(s, pid) == Some(s') by {
        var s2 := s1.(procs := s1.procs[c := s1.procs[c].(waitFor := pid, eax := 0)]);
        assert s2.procs[c := s2.procs[c].(status := Blocked, block := WaitProc)] == t;
      }
      assert s'.procs[c := t[c]] == s'.procs;
      WaitedInv(s, o, t, s');
    }
  }

  predicate SameRest(p: Proc, p': Proc) {
    && p'.pid == p.pid && p'.wakeup == p.wakeup
    && (p.status == Free ==> p'.status == Free)
    && (p.wakeup != 0 && BlockedFor(p, Sleeping) ==> BlockedFor(p', Sleeping))
  }

  lemma WaitedRecord(s: State, o: Slot, t: Table, p': Proc, i: Slot)
    requires Inv(s) && s.cur != IDLE && s.procs[o].status != Free && t == WaitTable(s.procs, s.cur, o)
    requires if i == s.cur then p' == t[i] else Similar(t[i], p')
    ensures WaitSame(t[i], p') && MailOk(p') && SameRest(s.procs[i], p')
  {
    assert MailOk(s.procs[i]) && SlotInv(s, i);
  }

  /** The rest of the invariant after scheduling away from the waiting process. */
  lemma WaitedInv(s: State, o: Slot, t: Table, s': State)
    requires Inv(s) && s.cur != IDLE && s.procs[o].status != Free && s.procs[o].waitProc == 0
    requires t == WaitTable(s.procs, s.cur, o)
    requires QueueInv(s') && s'.procs[s.cur] == t[s.cur] && s'.nextPid == s.nextPid && s'.nextWakeup == s.nextWakeup
    requires forall i: Slot :: i != s.cur ==> Similar(t[i], s'.procs[i])
    ensures Inv(s')
  {
    CoreLookups(s);
    WaitTableInv(s.procs, s.cur, o);
    forall i: Slot ensures WaitSame(t[i], s'.procs[i]) && MailOk(s'.procs[i]) && SameRest(s.procs[i], s'.procs[i]) {
      assert i != s.cur ==> Similar(t[i], s'.procs[i]);
      WaitedRecord(s, o, t, s'.procs[i], i);
    }
    WaitFrame(t, s'.procs);
    forall i: Slot ensures s'.procs[i].pid == s.procs[i].pid && (s.procs[i].status == Free ==> s'.procs[i].status == Free) {
      assert SameRest(s.procs[i], s'.procs[i]);
    }
    forall i: Slot | s'.procs[i].wakeup != 0
      ensures BlockedFor(s'.procs[i], Sleeping) && s'.nextWakeup <= s'.procs[i].wakeup < WORD
    {
      assert SameRest(s.procs[i], s'.procs[i]);
    }
    var used: nat :| PidInv(s.procs, s.nextPid, used);
    SimilarPids(s.procs, s'.procs, s.nextPid, used);
  }

  // ---------- pm_destroy ----------

  /** The records after process `p` died and its waiter, if any, was made ready. */
  function DeathTable(procs: Table, p: Slot): Table {
    var t: Table := procs[p := procs[p].(status := Free)];
    if procs[p].waitProc == 0 || Find(procs, procs[p].waitProc).None? then t
    else
      var w := Find(procs, procs[p].waitProc).value;
      t[w := t[w].(eax := procs[p].exitStatus, status := Ready, block := NotBlocked)]
  }

  lemma DeathTableWaiter(procs: Table, p: Slot, i: Slot)
    requires HasWaiter(procs, i) && HasWaiter(procs, p) && Runnable(procs[p])
    requires LookedUp(procs, i) && LookedUp(procs, p) && SameFinds(procs, DeathTable(procs, p))
    ensures HasWaiter(DeathTable(procs, p), i)
  {
  }

  lemma DeathTableTarget(procs: Table, p: Slot, i: Slot)
    requires HasTarget(procs, i) && HasWaiter(procs, p) && Runnable(procs[p])
    requires LookedUp(procs, i) && SameFinds(procs, DeathTable(procs, p))
    ensures HasTarget(DeathTable(procs, p), i)
  {
    var t := DeathTable(procs, p);
    if BlockedFor(t[i], WaitProc) {
      assert t[i] == procs[i];
      var o := Find(procs, procs[i].waitFor).value;
      assert Find(procs, procs[i].pid) == Some(i);
      assert o != p;
    }
  }

  lemma DeathTableInv(procs: Table, p: Slot)
    requires WaitInv(procs) && Lookups(procs) && Runnable(procs[p])
    ensures WaitInv(DeathTable(procs, p))
  {
    var t := DeathTable(procs, p);
    FindSame(procs, t);
    assert WaitOk(procs, p) && LookedUp(procs, p);
    forall i: Slot ensures WaitOk(t, i) {
      assert WaitOk(procs, i) && LookedUp(procs, i);
      DeathTableWaiter(procs, p, i);
      DeathTableTarget(procs, p, i);
    }
  }

  /** The state after process `p` was unlinked and its slot marked free. */
  function Unlinked(s: State, p: Slot): State
    requires Deactivate(s, p).Some?
  {
    var s1 := Deactivate(s, p).value;
    s1.(procs := s1.procs[p := s1.procs[p].(status := Free)])
  }

  lemma UnlinkedFacts(s: State, p: Slot)
    requires QueueInv(s) && p != IDLE && p in s.queue
    ensures Deactivate(s, p).Some?
    ensures var u := Unlinked(s, p);
            && QueueInv(u)
            && u == s.(procs := u.procs, queue := u.queue, cur := u.cur)
            && u.procs[p] == s.procs[p].(status := Free)
            && (forall i: Slot :: i != p ==> Similar(s.procs[i], u.procs[i]))
            && SameFinds(s.procs, u.procs)
  {
    if p == s.cur {
      var rec := s.procs[p];
      assert s.procs[p := rec] == s.procs;
      LeaveQueue(s, rec, rec.(status := Free));
    } else {
      DropQueue(s, p, s.procs[p].(status := Free));
    }
    var u := Unlinked(s, p);
    forall i: Slot ensures u.procs[i].pid == s.procs[i].pid {
      assert i != p ==> Similar(s.procs[i], u.procs[i]);
    }
    FindSame(s.procs, u.procs);
  }

  /** The waiter found by pm_destroy is the one blocked on the dying process. */
  lemma WaiterFound(s: State, p: Slot) returns (w: Slot)
    requires Inv(s) && Runnable(s.procs[p]) && s.procs[p].waitProc != 0
    ensures Find(s.procs, s.procs[p].waitProc) == Some(w)
    ensures w != p && w != IDLE && BlockedFor(s.procs[w], WaitProc) && s.procs[w].waitFor == s.procs[p].pid
  {
    assert WaitOk(s.procs, p);
    w := Find(s.procs, s.procs[p].waitProc).value;
  }

  lemma WakeWaiterQueue(s: State, p: Slot)
    requires Inv(s) && p != IDLE && p in s.queue
    ensures Deactivate(s, p).Some? && WakeWaiter(Unlinked(s, p), p).Some?
    ensures var s2 := WakeWaiter(Unlinked(s, p), p).value;
            && QueueInv(s2) && s2 == s.(procs := s2.procs, queue := s2.queue, cur := s2.cur)
            && SameFinds(s.procs, s2.procs)
            && forall i: Slot :: Similar(DeathTable(s.procs, p)[i], s2.procs[i])
  {
    UnlinkedFacts(s, p);
    assert SlotInv(s, p);
    if s.procs[p].waitProc != 0 {
      var w := WaiterFound(s, p);
      WakeFound(s, p, w);
    }
  }

  lemma WakeFound(s: State, p: Slot, w: Slot)
    requires QueueInv(s) && p != IDLE && p in s.queue && s.procs[p].waitProc != 0 && w != p && w != IDLE
    requires Find(s.procs, s.procs[p].waitProc) == Some(w) && BlockedFor(s.procs[w], WaitProc)
    ensures Deactivate(s, p).Some? && WakeWaiter(Unlinked(s, p), p).Some?
    ensures var s2 := WakeWaiter(Unlinked(s, p), p).value;
            && QueueInv(s2) && s2 == s.(procs := s2.procs, queue := s2.queue, cur := s2.cur)
            && SameFinds(s.procs, s2.procs)
            && forall i: Slot :: Similar(DeathTable(s.procs, p)[i], s2.procs[i])
  {
    UnlinkedFacts(s, p);
    var u := Unlinked(s, p);
    assert Similar(s.procs[w], u.procs[w]);
    var rec := u.procs[w].(eax := s.procs[p].exitStatus, status := Ready, block := NotBlocked);
    EnterQueue(u, w, rec);
    var s2 := WakeWaiter(u, p).value;
    assert s2 == Activate(u.(procs := u.procs[w := rec]), w);
    forall i: Slot ensures Similar(DeathTable(s.procs, p)[i], s2.procs[i]) {
      assert i != p ==> Similar(s.procs[i], u.procs[i]);
    }
    FindSame(u.procs, s2.procs);
  }

  lemma DeathTableRest(s: State, p: Slot)
    requires Inv(s) && Runnable(s.procs[p])
    ensures MailInv(DeathTable(s.procs, p)) && SleepInv(s.(procs := DeathTable(s.procs, p)))
  {
    var t := DeathTable(s.procs, p);
    if s.procs[p].waitProc != 0 { var w := WaiterFound(s, p); }
    forall i: Slot ensures MailOk(t[i]) { assert MailOk(s.procs[i]); }
  }

  lemma WakeWaiterInv(s: State, p: Slot)
    requires Inv(s) && p != IDLE && p in s.queue
    ensures Deactivate(s, p).Some? && WakeWaiter(Unlinked(s, p), p).Some?
    ensures Inv(WakeWaiter(Unlinked(s, p), p).value)
  {
    WakeWaiterQueue(s, p);
    var t, s2 := DeathTable(s.procs, p), WakeWaiter(Unlinked(s, p), p).value;
    CoreLookups(s);
    assert SlotInv(s, p);
    DeathTableInv(s.procs, p);
    DeathTableRest(s, p);
    SimilarKeeps(s.(procs := t), s2);
    DeathTablePids(s, p, s2);
  }

  lemma DeathTablePids(s: State, p: Slot, s2: State)
    requires Inv(s) && Runnable(s.procs[p]) && s2.nextPid == s.nextPid
    requires forall i: Slot :: Similar(DeathTable(s.procs, p)[i], s2.procs[i])
    ensures exists used: nat :: PidInv(s2.procs, s2.nextPid, used)
  {
    var t := DeathTable(s.procs, p);
    if s.procs[p].waitProc != 0 { var w := WaiterFound(s, p); }
    forall i: Slot ensures s2.procs[i].pid == s.procs[i].pid && (s.procs[i].status == Free ==> s2.procs[i].status == Free) {
      assert Similar(t[i], s2.procs[i]);
    }
    var used: nat :| PidInv(s.procs, s.nextPid, used);
    SimilarPids(s.procs, s2.procs, s.nextPid, used);
  }

  /** The pid a dying process once waited for can still be looked up. */
  predicate WaitForFound(s: State, p: Slot) {
    s.procs[p].waitFor != 0 ==> Find(s.procs, s.procs[p].waitFor).Some?
  }

  /** The last step of pm_destroy only ever writes to a free slot. */
  lemma DropWaitInv(s: State, p: Slot)
    requires Inv(s) && s.procs[p].status == Free && Find(s.procs, s.procs[p].pid) == Some(p) && s.procs[p].pid != 0
    ensures DropWait(s, p).Some? <==> WaitForFound(s, p)
    ensures DropWait(s, p).Some? ==> Inv(DropWait(s, p).value)
  {
    if s.procs[p].waitFor != 0 && WaitForFound(s, p) {
      var o := Find(s.procs, s.procs[p].waitFor).value;
      assert WaitOk(s.procs, o);
      if s.procs[o].waitProc == s.procs[p].pid {
        FreeRecordInv(s, o, s.procs[o].(waitProc := 0));
      }
    }
  }

  lemma FreeRecordInv(s: State, o: Slot, rec: Proc)
    requires Inv(s) && s.procs[o].status == Free && rec.(waitProc := s.procs[o].waitProc) == s.procs[o]
    ensures Inv(s.(procs := s.procs[o := rec]))
  {
    var s' := s.(procs := s.procs[o := rec]);
    RewriteRecord(s, o, rec);
    FreeRecordWait(s.procs, o, rec);
    assert rec.wakeup == s.procs[o].wakeup && rec.mailbox == s.procs[o].mailbox;
    forall i: Slot ensures MailOk(s'.procs[i]) { assert MailOk(s.procs[i]); }
    var used: nat :| PidInv(s.procs, s.nextPid, used);
    SimilarPids(s.procs, s'.procs, s.nextPid, used);
  }

  lemma FreeRecordWait(procs: Table, o: Slot, rec: Proc)
    requires WaitInv(procs) && procs[o].status == Free && rec.(waitProc := procs[o].waitProc) == procs[o]
    ensures WaitInv(procs[o := rec])
  {
    var t: Table := procs[o := rec];
    FindSame(procs, t);
    forall i: Slot ensures WaitOk(t, i) {
      assert WaitOk(procs, i);
      assert HasWaiter(t, i);
      assert HasTarget(t, i);
    }
  }

  lemma DropWaitEffect(s: State, p: Slot)
    requires Inv(s) && s.procs[p].status == Free && Find(s.procs, s.procs[p].pid) == Some(p) && s.procs[p].pid != 0
    requires DropWait(s, p).Some?
    ensures var s' := DropWait(s, p).value;
            && s' == s.(procs := s'.procs)
            && s'.procs[p].status == Free
            && forall i: Slot :: s.procs[i].status != Free ==> s'.procs[i] == s.procs[i]
  {
    if s.procs[p].waitFor != 0 {
      var o := Find(s.procs, s.procs[p].waitFor).value;
      assert WaitOk(s.procs, o);
    }
  }

  /** After the waiter was woken, the dead process is still the one found under its pid. */
  lemma StillFound(s: State, p: Slot)
    requires Inv(s) && p != IDLE && p in s.queue
    ensures Deactivate(s, p).Some? && WakeWaiter(Unlinked(s, p), p).Some?
    ensures var s2 := WakeWaiter(Unlinked(s, p), p).value;
            && s2.procs[p] == s.procs[p].(status := Free)
            && Find(s2.procs, s2.procs[p].pid) == Some(p) && s2.procs[p].pid != 0
            && (WaitForFound(s2, p) <==> WaitForFound(s, p))
  {
    assert SlotInv(s, p);
    WakeWaiterQueue(s, p);
    DeadRecord(s, p, WakeWaiter(Unlinked(s, p), p).value);
    FindsLive(s, p);
    FindsLive(s, IDLE);
  }

  lemma DeadRecord(s: State, p: Slot, s2: State)
    requires Inv(s) && Runnable(s.procs[p]) && Similar(DeathTable(s.procs, p)[p], s2.procs[p])
    ensures s2.procs[p] == s.procs[p].(status := Free)
  {
    if s.procs[p].waitProc != 0 { var w := WaiterFound(s, p); }
  }

  /** pm_destroy survives exactly for a process on the ready list whose last awaited pid can still be
      looked up; then it keeps the invariant. */
  lemma DestroyInv(s: State, p: Slot)
    requires Inv(s) && p != IDLE
    ensures Destroy(s, p).Some? <==> p in s.queue && WaitForFound(s, p)
    ensures Destroy(s, p).Some? ==> Inv(Destroy(s, p).value)
  {
    if p in s.queue {
      StillFound(s, p);
      WakeWaiterInv(s, p);
      DropWaitInv(WakeWaiter(Unlinked(s, p), p).value, p);
    }
  }

  /** Up to scheduling, pm_destroy does to live processes and to its victim what `DeathTable` says. */
  lemma DestroyEffect(s: State, p: Slot)
    requires Inv(s) && p != IDLE && p in s.queue && Destroy(s, p).Some?
    ensures var s', t := Destroy(s, p).value, DeathTable(s.procs, p);
            && s'.procs[p].status == Free
            && forall i: Slot :: t[i].status != Free ==> Similar(t[i], s'.procs[i])
  {
    StillFound(s, p);
    WakeWaiterInv(s, p);
    WakeWaiterQueue(s, p);
    var s2 := WakeWaiter(Unlinked(s, p), p).value;
    DropWaitEffect(s2, p);
    var s', t := Destroy(s, p).value, DeathTable(s.procs, p);
    forall i: Slot | t[i].status != Free ensures Similar(t[i], s'.procs[i]) {
      assert Similar(t[i], s2.procs[i]);
    }
  }

  /** The state sys_exit passes to pm_destroy. */
  function Exiting(s: State, status: int): State {
    s.(procs := s.procs[s.cur := s.procs[s.cur].(exitStatus := status)])
  }

  lemma ExitingInv(s: State, status: int)
    requires Inv(s)
    ensures Inv(Exiting(s, status)) && SameFinds(s.procs, Exiting(s, status).procs)
  {
    assert MailOk(s.procs[s.cur]);
    RecordInv(s, s.cur, s.procs[s.cur].(exitStatus := status));
    FindSame(s.procs, Exiting(s, status).procs);
  }

  lemma ExitInv(s: State, status: int)
    requires Inv(s) && s.cur != IDLE
    ensures Exit(s, status).Some? <==> WaitForFound(s, s.cur)
    ensures Exit(s, status).Some? ==> Inv(Exit(s, status).value)
  {
    ExitingInv(s, status);
    DestroyInv(Exiting(s, status), s.cur);
    if Destroy(Exiting(s, status), s.cur).Some? { ScheduleInv(Destroy(Exiting(s, status), s.cur).value); }
  }

  lemma ExitEffect(s: State, status: int)
    requires Inv(s) && s.cur != IDLE && WaitForFound(s, s.cur)
    ensures Exit(s, status).Some?
    ensures var s', t := Exit(s, status).value, DeathTable(Exiting(s, status).procs, s.cur);
            && s'.procs[s.cur].status == Free
            && forall i: Slot :: t[i].status != Free ==> Similar(t[i], s'.procs[i])
  {
    ExitInv(s, status);
    ExitingInv(s, status);
    var s0 := Exiting(s, status);
    DestroyInv(s0, s.cur);
    DestroyEffect(s0, s.cur);
    var s1, t := Destroy(s0, s.cur).value, DeathTable(s0.procs, s.cur);
    ScheduleQueue(s1);
    var s' := Schedule(s1);
    assert Similar(s1.procs[s.cur], s'.procs[s.cur]);
    forall i: Slot | t[i].status != Free ensures Similar(t[i], s'.procs[i]) {
      assert Similar(t[i], s1.procs[i]) && Similar(s1.procs[i], s'.procs[i]);
    }
  }
}
