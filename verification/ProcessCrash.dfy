/** A short run from boot that ends in the null dereference of pm_destroy: a parent waits for a child,
    a later child takes over the slot, and then the parent exits. */
module ProcessCrash {
  import opened Common
  import opened ProcessModel
  import opened ProcessInvariant
  import opened ProcessDeath
  import opened ProcessRuns

  lemma EmptyIs(procs: Table, i: Slot)
    requires procs[i].status == Free && forall j: Slot | j < i :: procs[j].status != Free
    ensures Empty(procs) == Some(i)
  {
    var e := Empty(procs);
    assert procs[i].status == Free;
    assert e.Some? && e.value <= i;
  }

  const SCRIPT: seq<Op> := [CreateOp(true), YieldOp, ForkOp, WaitOp(2), ExitOp(7), ForkOp, ExitOp(0)]

  /** After `kinit` (slot 1) was created and scheduled. */
  function S2(): State {
    var b := Boot();
    b.(procs := b.procs[1 := NewProc(1, Running)], queue := [1, 0], cur := 1, nextPid := 2)
  }

  lemma ToS2()
    ensures Possible(Boot(), SCRIPT[..2]) && Run(Boot(), SCRIPT[..2]) == Some(S2())
  {
    var b := Boot();
    EmptyIs(b.procs, 1);
    var s1 := Step(b, SCRIPT[0]).value;
    assert s1.queue == [0, 1] && s1.procs == b.procs[1 := NewProc(1, Ready)];
    var s2 := Step(s1, SCRIPT[1]).value;
    assert s2.queue == [1, 0] && s2.procs == S2().procs;
    assert SCRIPT[..2][0] == CreateOp(true) && SCRIPT[..2][1..] == [YieldOp] && [YieldOp][1..] == [];
    assert Run(s1, [YieldOp]) == Some(s2);
  }

  /** After it forked a child (slot 2) and waits for it. */
  function S4(): State {
    var b := Boot();
    var parent := NewProc(1, Blocked).(block := WaitProc, waitFor := 2);
    var child := NewProc(2, Running).(waitProc := 1);
    b.(procs := b.procs[1 := parent][2 := child], queue := [2, 0], cur := 2, nextPid := 3)
  }

  /** After it forked a child (slot 2): idle in the middle, the child last. */
  lemma ThreeQueued()
    ensures Inv(Boot()) && Create(Boot(), Ready).Some?
    ensures var s1 := Create(Boot(), Ready).value;
            && s1.queue != []
            && var s3 := Fork(Schedule(s1));
            && Inv(Schedule(s1)) && Inv(s3) && s3.queue == [1, 0, 2] && s3.cur == 1 && Destroy(s3, 2).Some?
            && Without(s3.queue, 2) == [1, 0]
  {
    var b := Boot();
    BootInv();
    EmptyIs(b.procs, 1);
    var s1 := Create(b, Ready).value;
    StepInv(b, CreateOp(true));
    assert s1.queue == [0, 1];
    StepInv(s1, YieldOp);
    ForkTwo(s1);
  }

  lemma ForkTwo(s1: State)
    requires s1 == Boot().(procs := Boot().procs[1 := NewProc(1, Ready)], queue := [0, 1], nextPid := 2)
    requires Inv(Schedule(s1))
    ensures var s3 := Fork(Schedule(s1));
            && Inv(s3) && s3.queue == [1, 0, 2] && s3.cur == 1 && Destroy(s3, 2).Some?
            && Without(s3.queue, 2) == [1, 0]
  {
    var s2 := Schedule(s1);
    assert s2.queue == [1, 0];
    StepInv(s2, ForkOp);
    EmptyIs(s2.procs, 2);
    var s3 := Fork(s2);
    assert s3.queue == [1, 0, 2];
    DestroyInv(s3, 2);
    assert [1, 0, 2][1..] == [0, 2] && [0, 2][1..] == [2];
    assert Without([0, 2], 2) == [0];
  }

  lemma ToS4()
    ensures Possible(S2(), SCRIPT[2..4]) && Run(S2(), SCRIPT[2..4]) == Some(S4())
  {
    var s2 := S2();
    EmptyIs(s2.procs, 2);
    var s3 := Step(s2, ForkOp).value;
    assert s3.queue == [1, 0, 2];
    FindIs(s3.procs, 2, 2);
    var s4 := Step(s3, WaitOp(2)).value;
    assert Without([1, 0, 2], 1) == [0, 2] by { assert [1, 0, 2][1..] == [0, 2]; }
    assert s4.queue == [2, 0];
    assert s4.procs == S4().procs;
    assert SCRIPT[2..4][0] == ForkOp && SCRIPT[2..4][1..] == [WaitOp(2)] && [WaitOp(2)][1..] == [];
    assert Run(s3, [WaitOp(2)]) == Some(s4);
  }

  /** After the child exited and the parent was handed its status. */
  function S5(): State {
    var b := Boot();
    var idle := NewProc(0, Ready).(block := Init);
    var parent := NewProc(1, Running).(waitFor := 2, eax := 7);
    var child := NewProc(2, Free).(waitProc := 1, exitStatus := 7);
    b.(procs := b.procs[0 := idle][1 := parent][2 := child], queue := [1, 0], cur := 1, nextPid := 3)
  }

  lemma ToS5()
    ensures Possible(S4(), [ExitOp(7)]) && Run(S4(), [ExitOp(7)]) == Some(S5())
  {
    var s4 := S4();
    assert Without([2, 0], 2) == [0] by { assert [2, 0][1..] == [0]; }
    var d := Deactivate(Exiting(s4, 7), 2).value;
    assert d.queue == [0] && d.cur == 0;
    var u := d.(procs := d.procs[2 := d.procs[2].(status := Free)]);
    FindIs(u.procs, 1, 1);
    var s5 := Step(s4, ExitOp(7)).value;
    assert s5.queue == [1, 0] && s5.cur == 1;
    assert s5.procs == S5().procs;
    assert [ExitOp(7)][1..] == [];
    assert Run(s5, []) == Some(s5);
  }

  /** After the parent forked again: pid 2 is gone from the table. */
  function S6(): State {
    S5().(procs := S5().procs[1 := S5().procs[1].(eax := 3)][2 := NewProc(3, Ready)], queue := [1, 0, 2], nextPid := 4)
  }

  lemma ToS6()
    ensures Possible(S5(), [ForkOp]) && Run(S5(), [ForkOp]) == Some(S6())
  {
    var s5 := S5();
    EmptyIs(s5.procs, 2);
    var s6 := Step(s5, ForkOp).value;
    assert s6.queue == [1, 0, 2];
    assert s6.procs == S6().procs;
    assert [ForkOp][1..] == [];
    assert Run(s6, []) == Some(s6);
  }

  lemma {:induction false} RunConcat(s: State, a: seq<Op>, b: seq<Op>)
    requires Possible(s, a) && Run(s, a).Some? && Possible(Run(s, a).value, b)
    ensures Possible(s, a + b) && Run(s, a + b) == Run(Run(s, a).value, b)
    decreases a
  {
    if a == [] {
      assert a + b == b;
    } else {
      assert (a + b)[0] == a[0] && (a + b)[1..] == a[1..] + b;
      RunConcat(Step(s, a[0]).value, a[1..], b);
    }
  }

  /** The run is possible from boot and its last step crashes the kernel. */
  lemma LostWaitCrashes()
    ensures Possible(Boot(), SCRIPT) && Run(Boot(), SCRIPT).None?
    ensures Possible(Boot(), SCRIPT[..6]) && Run(Boot(), SCRIPT[..6]).Some?
  {
    FirstFour(SCRIPT[..4]);
    FirstSix(SCRIPT[..4], SCRIPT[..6]);
    LastStep(SCRIPT[..6]);
    assert SCRIPT[..6] + [ExitOp(0)] == SCRIPT;
  }

  lemma FirstFour(ops: seq<Op>)
    requires ops == SCRIPT[..4]
    ensures Possible(Boot(), ops) && Run(Boot(), ops) == Some(S4())
  {
    ToS2();
    ToS4();
    RunConcat(Boot(), SCRIPT[..2], SCRIPT[2..4]);
    assert SCRIPT[..2] + SCRIPT[2..4] == ops;
  }

  lemma FirstSix(four: seq<Op>, ops: seq<Op>)
    requires Possible(Boot(), four) && Run(Boot(), four) == Some(S4()) && ops == four + [ExitOp(7)] + [ForkOp]
    ensures Possible(Boot(), ops) && Run(Boot(), ops) == Some(S6())
  {
    ToS5();
    ToS6();
    RunConcat(Boot(), four, [ExitOp(7)]);
    RunConcat(Boot(), four + [ExitOp(7)], [ForkOp]);
  }

  lemma LastStep(ops: seq<Op>)
    requires Possible(Boot(), ops) && Run(Boot(), ops) == Some(S6())
    ensures Possible(Boot(), ops + [ExitOp(0)]) && Run(Boot(), ops + [ExitOp(0)]).None?
  {
    var s6 := S6();
    ReachableInv(ops);
    assert Find(s6.procs, 2).None? by {
      forall j: Slot ensures s6.procs[j].pid != 2 { }
    }
    StepInv(s6, ExitOp(0));
    RunConcat(Boot(), ops, [ExitOp(0)]);
  }
}
