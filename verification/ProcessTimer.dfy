/** The sleep timer: the cached minimum never makes a sleeper late or early. */
module ProcessTimer {
  import opened Common
  import opened ProcessModel
  import opened ProcessInvariant
  import opened ProcessSteps

  predicate IsOverdue(p: Proc, ticks: nat) { 0 < p.wakeup <= ticks }

  function Woken(p: Proc): Proc {
    p.(wakeup := 0, status := Ready, block := NotBlocked)
  }

  /** The overdue sleepers from slot `i` on, in slot order. */
  function Overdue(procs: Table, ticks: nat, i: nat): seq<Slot>
    requires i <= MAX_PROCS
    decreases MAX_PROCS - i, procs
  {
    if i == MAX_PROCS then []
    else if IsOverdue(procs[i], ticks) then [i] + Overdue(procs, ticks, i + 1)
    else Overdue(procs, ticks, i + 1)
  }

  /** Half way through the scan: sleepers before slot `i` are in the future and in the minimum. */
  ghost predicate ScanInv(s: State, i: nat) {
    Core(s) && forall j: Slot :: ScanOk(s, i, j)
  }

  ghost predicate ScanOk(s: State, i: nat, j: Slot) {
    s.procs[j].wakeup != 0 ==>
      && BlockedFor(s.procs[j], Sleeping) && s.procs[j].wakeup < WORD
      && (j < i ==> s.ticks < s.procs[j].wakeup && s.nextWakeup <= s.procs[j].wakeup)
  }

  lemma WakeSlotInv(s: State, i: Slot, next: nat)
    requires ScanInv(s, i) && next == i + 1
    ensures ScanInv(WakeSlot(s, i), next)
  {
    var s' := WakeSlot(s, i);
    var p := s.procs[i];
    assert ScanOk(s, i, i);
    if IsOverdue(p, s.ticks) {
      assert MailOk(p) && SlotInv(s, i);
      EnterCore(s, i, Woken(p));
      assert s.procs[i := p.(wakeup := 0)][i := Woken(p)] == s.procs[i := Woken(p)];
    } else {
      QueueSame(s, s');
    }
    forall j: Slot ensures ScanOk(s', next, j) { assert ScanOk(s, i, j); }
  }

  lemma {:induction false} WakeScanInv(s: State, i: nat)
    requires i <= MAX_PROCS && ScanInv(s, i)
    ensures ScanInv(WakeScan(s, i), MAX_PROCS)
    decreases MAX_PROCS - i
  {
    if i < MAX_PROCS {
      WakeSlotInv(s, i, i + 1);
      WakeScanInv(WakeSlot(s, i), i + 1);
    }
  }

  /** The scan from slot `i` wakes the overdue sleepers from there on and touches no other record. */
  lemma {:induction false} WakeScanExact(s: State, i: nat)
    requires i <= MAX_PROCS
    ensures var s' := WakeScan(s, i);
            && s'.queue == s.queue + Overdue(s.procs, s.ticks, i)
            && s'.cur == s.cur && s'.ticks == s.ticks && s'.nextPid == s.nextPid
            && forall j: Slot :: s'.procs[j] == if j >= i && IsOverdue(s.procs[j], s.ticks) then Woken(s.procs[j]) else s.procs[j]
    decreases MAX_PROCS - i
  {
    if i < MAX_PROCS {
      var s1 := WakeSlot(s, i);
      WakeScanExact(s1, i + 1);
      OverdueSame(s.procs, s1.procs, s.ticks, i + 1);
      assert IsOverdue(s.procs[i], s.ticks) ==>
        (s.queue + [i]) + Overdue(s.procs, s.ticks, i + 1) == s.queue + ([i] + Overdue(s.procs, s.ticks, i + 1));
    }
  }

  lemma {:induction false} OverdueSame(procs: Table, procs': Table, ticks: nat, i: nat)
    requires i <= MAX_PROCS && forall j: Slot | j >= i :: procs'[j] == procs[j]
    ensures Overdue(procs', ticks, i) == Overdue(procs, ticks, i)
    decreases MAX_PROCS - i
  {
    if i < MAX_PROCS { OverdueSame(procs, procs', ticks, i + 1); }
  }

  lemma {:induction false} OverdueNone(procs: Table, ticks: nat, i: nat)
    requires i <= MAX_PROCS && forall j: Slot :: !IsOverdue(procs[j], ticks)
    ensures Overdue(procs, ticks, i) == []
    decreases MAX_PROCS - i
  {
    if i < MAX_PROCS { OverdueNone(procs, ticks, i + 1); }
  }

  /** A timer interrupt wakes exactly the sleepers that are due, in slot order, scan or no scan. */
  lemma WakeExact(s: State, full: bool)
    requires SleepInv(s)
    ensures var s', now := Wake(s, full), s.ticks + 1;
            && s'.ticks == now && s'.cur == s.cur && s'.nextPid == s.nextPid
            && s'.queue == s.queue + Overdue(s.procs, now, FIRST)
            && forall j: Slot :: s'.procs[j] == if IsOverdue(s.procs[j], now) then Woken(s.procs[j]) else s.procs[j]
  {
    var now := s.ticks + 1;
    if full || now >= s.nextWakeup {
      WakeScanExact(s.(ticks := now, nextWakeup := NEVER), FIRST);
    } else {
      NoneOverdue(s, now);
      OverdueNone(s.procs, now, FIRST);
      assert s.queue + [] == s.queue;
    }
  }

  lemma NoneOverdue(s: State, now: nat)
    requires SleepInv(s) && now < s.nextWakeup
    ensures forall j: Slot :: !IsOverdue(s.procs[j], now)
  {
  }

  /** The fast check is only an optimisation: with and without it the same state results, up to the cache. */
  lemma FastCheckRefinesScan(s: State)
    requires Inv(s)
    ensures Wake(s, false) == Wake(s, true).(nextWakeup := Wake(s, false).nextWakeup)
  {
    WakeExact(s, false);
    WakeExact(s, true);
    var a, b := Wake(s, false), Wake(s, true);
    forall j: Slot ensures a.procs[j] == b.procs[j] { }
    assert a.procs == b.procs;
  }

  lemma {:induction false} WakeScanTicks(s: State, i: nat)
    requires i <= MAX_PROCS
    ensures WakeScan(s, i).ticks == s.ticks
    decreases MAX_PROCS - i
  {
    if i < MAX_PROCS { WakeScanTicks(WakeSlot(s, i), i + 1); }
  }

  lemma ScanStart(s: State, s1: State)
    requires Inv(s) && s1 == s.(ticks := s1.ticks, nextWakeup := s1.nextWakeup)
    ensures ScanInv(s1, FIRST)
  {
    QueueSame(s, s1);
    forall j: Slot ensures ScanOk(s1, FIRST, j) { }
  }

  lemma ScanEnd(s: State)
    requires ScanInv(s, MAX_PROCS)
    ensures Inv(s) && forall j: Slot :: !IsOverdue(s.procs[j], s.ticks)
  {
    forall j: Slot ensures s.procs[j].wakeup != 0 ==>
        BlockedFor(s.procs[j], Sleeping) && s.nextWakeup <= s.procs[j].wakeup < WORD && s.ticks < s.procs[j].wakeup
    {
      assert ScanOk(s, MAX_PROCS, j);
    }
  }

  lemma WakeInv(s: State)
    requires Inv(s)
    ensures Inv(Wake(s, false)) && Wake(s, false).ticks == s.ticks + 1
    ensures forall j: Slot :: !IsOverdue(Wake(s, false).procs[j], s.ticks + 1)
  {
    var now := s.ticks + 1;
    if now >= s.nextWakeup {
      var s1 := s.(ticks := now, nextWakeup := NEVER);
      ScanStart(s, s1);
      WakeScanInv(s1, FIRST);
      WakeScanTicks(s1, FIRST);
      ScanEnd(WakeScan(s1, FIRST));
    } else {
      QueueSame(s, s.(ticks := now));
      NoneOverdue(s, now);
    }
  }

  lemma TickInv(s: State)
    requires Inv(s)
    ensures Tick(s, false).Some? && Inv(Tick(s, false).value)
  {
    WakeInv(s);
    ScheduleInv(Wake(s, false));
  }
}
