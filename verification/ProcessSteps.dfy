/** Every step keeps the invariant, and exactly which steps the kernel does not survive. */
module ProcessSteps {
  import opened Common
  import opened ProcessModel
  import opened ProcessInvariant

  // ---------- leaving and entering the ready list ----------

  /** The current process leaves the list: with record `rec` when it is unlinked and `rec'` afterwards. */
  lemma LeaveQueue(s: State, rec: Proc, rec': Proc)
    requires QueueInv(s) && s.cur != IDLE
    requires rec.status in {Blocked, Running} && !Runnable(rec')
    ensures var r := Deactivate(s.(procs := s.procs[s.cur := rec]), s.cur);
            && r.Some?
            && r.value.procs[s.cur] == (if rec.status == Running then rec.(status := Ready) else rec)
            && r.value == s.(procs := r.value.procs, queue := r.value.queue, cur := r.value.cur)
            && QueueInv(r.value.(procs := r.value.procs[s.cur := rec']))
            && r.value.queue == Rotate(s.queue[1..])
            && forall i: Slot :: i != s.cur ==> Similar(s.procs[i], r.value.procs[i])
  {
    var p := s.cur;
    var rest := s.queue[1..];
    assert s.queue == [p] + rest;
    assert IDLE in rest && p !in rest;
    var s1 := s.(procs := s.procs[p := rec], queue := rest);
    var s2 := s.(procs := s.procs[p := rec'], queue := rest);
    forall i: Slot ensures SlotInv(s2, i) { assert SlotInv(s, i); }
    ScheduleQueue(s2);
    var q := Rotate(rest);
    assert q[0] in rest;
    assert Schedule(s1).procs[p := rec'] == Schedule(s2).procs;
    forall i: Slot | i != p ensures Similar(s.procs[i], Schedule(s1).procs[i]) {
      assert Similar(s2.procs[i], Schedule(s2).procs[i]);
    }
  }

  lemma DistinctCons(x: Slot, q: seq<Slot>)
    requires Distinct(q) && x !in q
    ensures Distinct([x] + q)
  {
    var r := [x] + q;
    forall j, k | 0 <= j < k < |r| ensures r[j] != r[k] {
      assert r[k] == q[k - 1] && (j > 0 ==> r[j] == q[j - 1]);
    }
  }

  lemma {:induction false} WithoutFacts(q: seq<Slot>, p: Slot)
    requires Distinct(q) && p in q
    ensures var r := Without(q, p);
            && Distinct(r) && (forall x: Slot :: x in r <==> x in q && x != p)
            && (q[0] != p ==> r != [] && r[0] == q[0])
    decreases q
  {
    if q[0] != p {
      var t := q[1..];
      assert q == [q[0]] + t;
      WithoutFacts(t, p);
      assert q[0] !in t;
      DistinctCons(q[0], Without(t, p));
    } else {
      assert q == [p] + q[1..];
    }
  }

  /** Another process leaves the list, with record `rec` afterwards. */
  lemma DropQueue(s: State, p: Slot, rec: Proc)
    requires QueueInv(s) && p != IDLE && p != s.cur && p in s.queue && !Runnable(rec)
    ensures QueueInv(s.(procs := s.procs[p := rec], queue := Without(s.queue, p)))
  {
    WithoutFacts(s.queue, p);
    var s' := s.(procs := s.procs[p := rec], queue := Without(s.queue, p));
    forall i: Slot ensures SlotInv(s', i) { assert SlotInv(s, i); }
  }

  /** A process that is not runnable enters at the end of the list, made ready by record `rec`. */
  lemma EnterQueue(s: State, p: Slot, rec: Proc)
    requires QueueInv(s) && p != IDLE && !Runnable(s.procs[p])
    requires rec.status == Ready && rec.block == NotBlocked
    ensures QueueInv(Activate(s.(procs := s.procs[p := rec]), p))
  {
    assert SlotInv(s, p);
    var s' := Activate(s.(procs := s.procs[p := rec]), p);
    forall i: Slot ensures SlotInv(s', i) { assert SlotInv(s, i); }
  }

  /** Changing a record without making it runnable or not. */
  lemma RewriteRecord(s: State, p: Slot, rec: Proc)
    requires QueueInv(s) && rec.status == s.procs[p].status && rec.block == s.procs[p].block
    ensures QueueInv(s.(procs := s.procs[p := rec]))
  {
    var s' := s.(procs := s.procs[p := rec]);
    forall i: Slot ensures SlotInv(s', i) { assert SlotInv(s, i); }
  }

  // ---------- the wait relation under change ----------

  /** Records may change freely in what the wait relation does not look at. */
  predicate WaitSame(p: Proc, p': Proc) {
    && p'.pid == p.pid && p'.waitProc == p.waitProc && p'.waitFor == p.waitFor
    && (p'.status == Free <==> p.status == Free)
    && (BlockedFor(p', WaitProc) <==> BlockedFor(p, WaitProc))
  }

  lemma WaitFrame(procs: Table, procs': Table)
    requires WaitInv(procs) && forall i: Slot :: WaitSame(procs[i], procs'[i])
    ensures WaitInv(procs')
  {
    FindSame(procs, procs');
    forall i: Slot ensures WaitOk(procs', i) { assert WaitOk(procs, i) && WaitSame(procs[i], procs'[i]); }
  }

  // ---------- the current process blocks ----------

  /** The current process blocks with record `rec`, which says what it waits for. */
  lemma BlockInv(s: State, rec: Proc)
    requires Inv(s) && s.cur != IDLE
    requires rec.status == Blocked && rec.block !in {WaitProc, Init} && rec.wakeup == 0
    requires MailOk(rec) && WaitSame(s.procs[s.cur], rec)
    ensures var r := Deactivate(s.(procs := s.procs[s.cur := rec]), s.cur);
            && r.Some? && Inv(r.value) && r.value.procs[s.cur] == rec
            && r.value == s.(procs := r.value.procs, queue := r.value.queue, cur := r.value.cur)
            && forall i: Slot :: i != s.cur ==> Similar(s.procs[i], r.value.procs[i])
  {
    LeaveQueue(s, rec, rec);
    var s' := Deactivate(s.(procs := s.procs[s.cur := rec]), s.cur).value;
    assert s'.procs[s.cur := rec] == s'.procs;
    forall i: Slot ensures WaitSame(s.procs[i], s'.procs[i]) && MailOk(s'.procs[i]) {
      assert i != s.cur ==> Similar(s.procs[i], s'.procs[i]);
      assert MailOk(s.procs[i]);
      assert QueueInv(s) && SlotInv(s, i);
    }
    WaitFrame(s.procs, s'.procs);
    var used: nat :| PidInv(s.procs, s.nextPid, used);
    SimilarPids(s.procs, s'.procs, s.nextPid, used);
  }

  lemma SleepStepInv(s: State, msec: nat)
    requires Inv(s) && s.cur != IDLE
    ensures Sleep(s, msec).Some? && Inv(Sleep(s, msec).value)
  {
    var p := s.cur;
    var rec := s.procs[p].(status := Blocked, block := Sleeping);
    assert MailOk(s.procs[p]);
    assert SlotInv(s, p);
    BlockInv(s, rec);
    SleepArmed(Block(s, p, Sleeping).value, p, WakeTick(s.ticks, msec));
  }

  /** A sleeper gets its wake-up tick, and the cached minimum is adjusted. */
  lemma SleepArmed(s: State, p: Slot, w: nat)
    requires Inv(s) && BlockedFor(s.procs[p], Sleeping) && w < WORD
    ensures Inv(s.(procs := s.procs[p := s.procs[p].(wakeup := w)], nextWakeup := if s.nextWakeup > w then w else s.nextWakeup))
  {
    var s' := s.(procs := s.procs[p := s.procs[p].(wakeup := w)], nextWakeup := if s.nextWakeup > w then w else s.nextWakeup);
    RewriteRecord(s, p, s'.procs[p]);
    QueueSame(s.(procs := s'.procs), s');
    forall i: Slot ensures WaitSame(s.procs[i], s'.procs[i]) && MailOk(s'.procs[i]) { assert MailOk(s.procs[i]); }
    WaitFrame(s.procs, s'.procs);
    var used: nat :| PidInv(s.procs, s.nextPid, used);
    SimilarPids(s.procs, s'.procs, s.nextPid, used);
  }

  lemma BlockFsInv(s: State)
    requires Inv(s) && s.cur != IDLE
    ensures Block(s, s.cur, WaitFs).Some? && Inv(Block(s, s.cur, WaitFs).value)
  {
    assert MailOk(s.procs[s.cur]) && SlotInv(s, s.cur);
    BlockInv(s, s.procs[s.cur].(status := Blocked, block := WaitFs));
  }

  lemma ReceiveInv(s: State, block: bool)
    requires Inv(s) && s.cur != IDLE
    ensures Receive(s, block).Some? && Inv(Receive(s, block).value)
  {
    var p := s.procs[s.cur];
    assert MailOk(p) && SlotInv(s, s.cur);
    if p.mailbox != [] {
      RecordInv(s, s.cur, Take(p));
    } else if block {
      var rec := p.(waiting := true, status := Blocked, block := Receiving);
      BlockInv(s, rec);
      assert s.procs[s.cur := p.(waiting := true)][s.cur := rec] == s.procs[s.cur := rec];
    }
  }

  /** A record changes in what no part of the invariant but the mailbox looks at. */
  lemma RecordInv(s: State, p: Slot, rec: Proc)
    requires Inv(s)
    requires var q := s.procs[p];
             rec.(mailbox := q.mailbox, received := q.received, eax := q.eax, exitStatus := q.exitStatus) == q
    requires MailOk(rec)
    ensures Inv(s.(procs := s.procs[p := rec]))
  {
    var s' := s.(procs := s.procs[p := rec]);
    RewriteRecord(s, p, rec);
    forall i: Slot ensures WaitSame(s.procs[i], s'.procs[i]) && MailOk(s'.procs[i]) { assert MailOk(s.procs[i]); }
    WaitFrame(s.procs, s'.procs);
    var used: nat :| PidInv(s.procs, s.nextPid, used);
    SimilarPids(s.procs, s'.procs, s.nextPid, used);
  }

  // ---------- a blocked process becomes ready ----------

  lemma EnterCore(s: State, p: Slot, rec: Proc)
    requires Core(s) && p != IDLE && s.procs[p].status == Blocked && s.procs[p].block != WaitProc
    requires rec.status == Ready && rec.block == NotBlocked && WaitSame(s.procs[p], rec) && MailOk(rec)
    ensures Core(Activate(s.(procs := s.procs[p := rec]), p))
  {
    EnterQueue(s, p, rec);
    var s' := Activate(s.(procs := s.procs[p := rec]), p);
    forall i: Slot ensures WaitSame(s.procs[i], s'.procs[i]) && MailOk(s'.procs[i]) { assert MailOk(s.procs[i]); }
    WaitFrame(s.procs, s'.procs);
    var used: nat :| PidInv(s.procs, s.nextPid, used);
    SimilarPids(s.procs, s'.procs, s.nextPid, used);
  }

  lemma UnblockInv(s: State, p: Slot)
    requires Inv(s) && p != IDLE && s.procs[p].status == Blocked && s.procs[p].block in {Init, WaitFs}
    ensures Inv(Unblock(s, p))
  {
    assert MailOk(s.procs[p]);
    EnterCore(s, p, s.procs[p].(status := Ready, block := NotBlocked));
  }

  lemma SendInv(s: State, to: Slot, msg: Msg)
    requires Inv(s)
    ensures Inv(Send(s, to, msg))
  {
    var p := s.procs[to];
    assert MailOk(p);
    if BlockedFor(p, Receiving) {
      var rec := p.(status := Ready, block := NotBlocked, mailbox := [], waiting := false,
                    received := p.received + [Stamped(s, msg)]);
      assert SlotInv(s, to);
      EnterCore(s, to, rec);
      assert ([] + [Stamped(s, msg)])[1..] == [];
      assert Send(s, to, msg) == Activate(s.(procs := s.procs[to := rec]), to);
    } else if SendAnswer(s, to) == Done {
      RecordInv(s, to, p.(mailbox := p.mailbox + [Stamped(s, msg)]));
    }
  }

  // ---------- birth ----------

  /** The first free slot lies at most one behind the slots used so far. */
  lemma EmptyNear(procs: Table, nextPid: nat, used: nat, p: Slot)
    requires PidInv(procs, nextPid, used) && Empty(procs) == Some(p)
    ensures p <= used
  {
    assert used < MAX_PROCS ==> procs[used].status == Free;
  }

  lemma BornPids(procs: Table, nextPid: nat, used: nat, p: Slot, rec: Proc)
    requires PidInv(procs, nextPid, used) && Empty(procs) == Some(p) && rec.pid == nextPid && nextPid > 0
    requires procs[IDLE].status != Free
    ensures PidInv(procs[p := rec], nextPid + 1, if p < used then used else p + 1)
  {
    EmptyNear(procs, nextPid, used, p);
  }

  lemma BornQueue(s: State, p: Slot, status: Status)
    requires QueueInv(s) && s.procs[p].status == Free && status in {Ready, Blocked}
    ensures QueueInv(Born(s, p, status))
  {
    var s', rec := Born(s, p, status), NewProc(s.nextPid, status);
    assert SlotInv(s, p);
    if status == Ready {
      EnterQueue(s, p, rec);
      QueueSame(Activate(s.(procs := s.procs[p := rec]), p), s');
    } else {
      forall i: Slot ensures SlotInv(s', i) { assert SlotInv(s, i); }
    }
  }

  lemma BornMail(procs: Table, p: Slot, rec: Proc)
    requires MailInv(procs) && MailOk(rec)
    ensures MailInv(procs[p := rec])
  {
    var procs': Table := procs[p := rec];
    forall i: Slot ensures MailOk(procs'[i]) { assert MailOk(procs[i]); }
  }

  lemma BornInv(s: State, p: Slot, status: Status)
    requires Inv(s) && Empty(s.procs) == Some(p) && status in {Ready, Blocked} && s.nextPid + 1 < WORD
    ensures Inv(Born(s, p, status))
  {
    var s', rec := Born(s, p, status), NewProc(s.nextPid, status);
    BornQueue(s, p, status);
    BornMail(s.procs, p, rec);
    var used: nat :| PidInv(s.procs, s.nextPid, used);
    BornPids(s.procs, s.nextPid, used, p, rec);
    BornWait(s, p, rec, used);
    assert s'.procs == s.procs[p := rec] && s'.nextPid == s.nextPid + 1 && s'.nextWakeup == s.nextWakeup;
  }

  /** The newcomer takes nobody's pid, so all lookups of waiting pids still succeed. */
  lemma BornWait(s: State, p: Slot, rec: Proc, used: nat)
    requires WaitInv(s.procs) && PidInv(s.procs, s.nextPid, used) && Empty(s.procs) == Some(p)
    requires rec.pid == s.nextPid && rec.waitProc == 0 && !BlockedFor(rec, WaitProc)
    ensures WaitInv(s.procs[p := rec])
  {
    var procs': Table := s.procs[p := rec];
    EmptyNear(s.procs, s.nextPid, used, p);
    forall i: Slot ensures WaitOk(procs', i) {
      assert WaitOk(s.procs, i);
      if i != p {
        FindOther(s.procs, procs', p, s.procs[i].waitProc, used);
        FindOther(s.procs, procs', p, s.procs[i].waitFor, used);
      }
    }
  }

  /** Looking up a live process is not disturbed by a new pid in the first free slot. */
  lemma FindOther(procs: Table, procs': Table, p: Slot, pid: nat, used: nat)
    requires Empty(procs) == Some(p) && p <= used && procs' == procs[p := procs'[p]]
    requires forall i: Slot, j: Slot | i < j < used :: procs[i].pid != procs[j].pid
    requires forall i: Slot | i < used :: procs[i].pid != procs'[p].pid
    requires forall i: Slot | i >= used :: procs[i].status == Free
    ensures var f := Find(procs, pid);
            f.Some? && procs[f.value].status != Free ==> Find(procs', pid) == f
  {
    var f := Find(procs, pid);
    if f.Some? && procs[f.value].status != Free {
      assert f.value < used;
      FindIs(procs', pid, f.value);
    }
  }

  lemma CreateInv(s: State, status: Status)
    requires Inv(s) && status in {Ready, Blocked} && s.nextPid + 1 < WORD
    ensures Create(s, status).Some? ==> Inv(Create(s, status).value)
  {
    if Empty(s.procs).Some? { BornInv(s, Empty(s.procs).value, status); }
  }

  lemma ForkInv(s: State)
    requires Inv(s) && s.nextPid + 1 < WORD
    ensures Inv(Fork(s))
  {
    match Empty(s.procs)
    case None => SetEaxInv(s, s.cur, -1);
    case Some(p) =>
      BornInv(s, p, Ready);
      SetEaxInv(Born(s, p, Ready), s.cur, s.nextPid);
  }

  lemma SetEaxInv(s: State, p: Slot, value: int)
    requires Inv(s)
    ensures Inv(SetEax(s, p, value))
  {
    assert MailOk(s.procs[p]);
    RecordInv(s, p, s.procs[p].(eax := value));
  }
}
