/** The process core as the kernel stores it: a table of records, the ready list linked through
    `next` fields with a head and a tail pointer, and the global variables of pm.c and timer.c.
    Every method is proved against the state machine of `ProcessModel`; `ok == false` is a panic or a
    null dereference. */
module ProcessTable {
  import opened Common
  import opened ProcessModel
  import opened ProcessInvariant
  import opened ProcessDeath
  import opened ProcessTimer
  import opened ProcessRuns
  import opened ProcessCrash

  type Ptr = Option<Slot>

  /** From `head` on the links run through exactly `queue`. */
  ghost predicate Chain(link: seq<Ptr>, head: Ptr, queue: seq<Slot>)
    requires |link| == MAX_PROCS
  {
    && Distinct(queue)
    && head == (if queue == [] then None else Some(queue[0]))
    && forall k: nat | k < |queue| :: LinkAt(link, queue, k)
  }

  /** The tail pointer points to the last process. */
  ghost predicate Linked(link: seq<Ptr>, head: Ptr, tail: Ptr, queue: seq<Slot>)
    requires |link| == MAX_PROCS
  {
    Chain(link, head, queue) && tail == if queue == [] then None else Some(queue[|queue| - 1])
  }

  /** The tail pointer points to a process that is not on the list. */
  ghost predicate Stale(link: seq<Ptr>, head: Ptr, tail: Ptr, queue: seq<Slot>)
    requires |link| == MAX_PROCS
  {
    Chain(link, head, queue) && tail.Some? && tail.value !in queue
  }

  ghost predicate LinkAt(link: seq<Ptr>, queue: seq<Slot>, k: nat)
    requires |link| == MAX_PROCS && k < |queue|
  {
    link[queue[k]] == if k + 1 < |queue| then Some(queue[k + 1]) else None
  }

  lemma {:induction false} WithoutAt(q: seq<Slot>, k: nat)
    requires k < |q| && q[k] !in q[..k]
    ensures Without(q, q[k]) == q[..k] + q[k + 1..]
    decreases q
  {
    var t := q[1..];
    if k == 0 {
      assert q[..0] + q[1..] == q[1..];
    } else {
      assert q[0] == q[..k][0];
      assert t[..k - 1] == q[..k][1..];
      WithoutAt(t, k - 1);
      assert [q[0]] + (t[..k - 1] + t[k..]) == q[..k] + q[k + 1..];
    }
  }

  /** Rotating the list in place. */
  lemma LinkedRotate(link: seq<Ptr>, head: Ptr, tail: Ptr, queue: seq<Slot>)
    requires |link| == MAX_PROCS && Linked(link, head, tail, queue) && queue != []
    ensures var link1 := link[tail.value := head];
            Linked(link1[head.value := None], link1[head.value], head, Rotate(queue))
  {
    var link1 := link[tail.value := head];
    var link2 := link1[head.value := None];
    var q := Rotate(queue);
    RotateFacts(queue);
    assert LinkAt(link, queue, 0);
    forall k: nat | k < |q| ensures LinkAt(link2, q, k) {
      if k + 1 < |queue| { assert LinkAt(link, queue, k + 1) && q[k] == queue[k + 1]; }
    }
  }

  /** Linking process `p` behind the last one. */
  lemma LinkedAppend(link: seq<Ptr>, head: Ptr, tail: Ptr, queue: seq<Slot>, p: Slot)
    requires |link| == MAX_PROCS && Linked(link, head, tail, queue) && p !in queue
    ensures var link1 := if tail == None then link else link[tail.value := Some(p)];
            Linked(link1[p := None], if head == None then Some(p) else head, Some(p), queue + [p])
  {
    var link1 := if tail == None then link else link[tail.value := Some(p)];
    var link2, q := link1[p := None], queue + [p];
    forall k: nat | k < |q| ensures LinkAt(link2, q, k) {
      if k < |queue| { assert LinkAt(link, queue, k); }
    }
  }

  /** Unlinking the process at place `k`. */
  lemma ChainRemove(link: seq<Ptr>, head: Ptr, queue: seq<Slot>, k: nat)
    requires |link| == MAX_PROCS && Chain(link, head, queue) && k < |queue|
    ensures Chain(if k == 0 then link else link[queue[k - 1] := link[queue[k]]],
                  if k == 0 then link[queue[0]] else head, queue[..k] + queue[k + 1..])
    ensures queue[k] !in queue[..k] + queue[k + 1..]
  {
    var q := queue[..k] + queue[k + 1..];
    var link' := if k == 0 then link else link[queue[k - 1] := link[queue[k]]];
    assert LinkAt(link, queue, k);
    forall i: nat | i < |q| ensures LinkAt(link', q, i) {
      if i < k { assert LinkAt(link, queue, i); } else { assert LinkAt(link, queue, i + 1); }
    }
  }

  lemma LinkedRemove(link: seq<Ptr>, head: Ptr, tail: Ptr, queue: seq<Slot>, k: nat)
    requires |link| == MAX_PROCS && Linked(link, head, tail, queue) && k < |queue|
    ensures var link' := if k == 0 then link else link[queue[k - 1] := link[queue[k]]];
            var head' := if k == 0 then link[queue[0]] else head;
            var q := queue[..k] + queue[k + 1..];
            && (k + 1 < |queue| ==> Linked(link', head', tail, q))
            && (k + 1 == |queue| ==> Stale(link', head', tail, q))
  {
    ChainRemove(link, head, queue, k);
  }

  /** With a stale tail pointer a process is linked behind one that is off the list. */
  lemma StaleAppend(link: seq<Ptr>, head: Ptr, tail: Ptr, queue: seq<Slot>, p: Slot)
    requires |link| == MAX_PROCS && Stale(link, head, tail, queue) && p !in queue
    ensures var link' := link[tail.value := Some(p)][p := None];
            if queue == [] then Linked(link', Some(p), Some(p), [p]) else Stale(link', head, Some(p), queue)
  {
    var link' := link[tail.value := Some(p)][p := None];
    forall k: nat | k < |queue| ensures LinkAt(link', queue, k) { assert LinkAt(link, queue, k); }
    assert LinkAt(link', [p], 0);
  }

  /** With a stale tail pointer the front of the list is not moved to its end but off the list. */
  lemma StaleRotate(link: seq<Ptr>, head: Ptr, tail: Ptr, queue: seq<Slot>)
    requires |link| == MAX_PROCS && Stale(link, head, tail, queue) && queue != []
    ensures var link1 := link[tail.value := head];
            Stale(link1[head.value := None], link1[head.value], head, queue[1..])
  {
    var link1, q := link[tail.value := head], queue[1..];
    var link2 := link1[head.value := None];
    assert LinkAt(link, queue, 0);
    forall k: nat | k < |q| ensures LinkAt(link2, q, k) { assert LinkAt(link, queue, k + 1); }
  }

  /** All messages that a process has been handed, the oldest first: those it has taken and those still in its mailbox. */
  ghost function Mail(p: Proc): seq<Msg> { p.received + p.mailbox }


  class Kernel {
    var procs: Table
    var link: seq<Ptr>
    var head: Ptr
    var tail: Ptr
    var cur: Slot
    var adrift: bool    // cur_proc is the empty record behind the global idle_proc, not one of the table
    var nextPid: nat
    var ticks: nat
    var nextWakeup: nat
    ghost var queue: seq<Slot>

    ghost predicate Valid()
      reads this
    {
      Sound() && !adrift
    }

    ghost predicate Sound()
      reads this
    {
      |link| == MAX_PROCS && Linked(link, head, tail, queue)
    }

    /** The list after its last process was taken off: the tail pointer was left behind. */
    ghost predicate Dangling()
      reads this
    {
      |link| == MAX_PROCS && Stale(link, head, tail, queue) && (adrift ==> queue == [])
    }

    /** What pm_schedule makes of a dangling list of `s`. */
    ghost predicate Dwindled(s: State)
      requires s.queue != []
      reads this
    {
      Dangling() && if |s.queue| > 1 then !adrift && Abs() == StaleSchedule(s) else adrift && Abs() == Deserted(s)
    }

    ghost function Abs(): State
      reads this
    {
      State(procs, queue, cur, nextPid, ticks, nextWakeup)
    }

    /** init_pm and init_timer: the idle process is created blocked, then put on the list. */
    constructor ()
      ensures Valid() && Abs() == Boot()
    {
      var table: Table := seq(MAX_PROCS, i requires 0 <= i < MAX_PROCS => NewProc(i, Free));
      procs := table[IDLE := NewProc(0, Blocked)];
      link := seq(MAX_PROCS, _ => None);
      head, tail := Some(IDLE), Some(IDLE);
      cur, nextPid, ticks, nextWakeup := IDLE, 1, 0, NEVER;
      queue, adrift := [IDLE], false;
      new;
      assert LinkAt(link, queue, 0);
    }

    method SetProc(p: Slot, rec: Proc)
      modifies this`procs
      ensures procs == old(procs)[p := rec]
    {
      procs := procs[p := rec];
    }

    /** pm_activate. On a dangling list the process is lost, unless the list is empty. */
    method Activate(p: Slot)
      requires (Sound() || Dangling()) && p !in queue
      modifies this`link, this`head, this`tail, this`queue
      ensures old(Sound()) || old(queue) == [] ==> Sound() && Abs() == ProcessModel.Activate(old(Abs()), p)
      ensures old(Dangling()) && old(queue) != [] ==> Dangling() && queue == old(queue)
    {
      if Sound() { LinkedAppend(link, head, tail, queue, p); } else { StaleAppend(link, head, tail, queue, p); }
      ghost var lost := Dangling() && queue != [];
      if head == None { head := Some(p); }
      if tail == None { tail := Some(p); } else { link := link[tail.value := Some(p)]; }
      tail := Some(p);
      link := link[p := None];
      if !lost { queue := queue + [p]; }
    }

    /** The list operations of pm_schedule. On a dangling list the front is lost. */
    method Turn()
      requires (Sound() || Dangling()) && queue != []
      modifies this`link, this`head, this`tail, this`queue
      ensures old(Sound()) ==> Sound() && queue == Rotate(old(queue))
      ensures old(Dangling()) ==> Dangling() && queue == old(queue)[1..]
    {
      ghost var q := if Sound() then Rotate(queue) else queue[1..];
      if Sound() { LinkedRotate(link, head, tail, queue); } else { StaleRotate(link, head, tail, queue); }
      link := link[tail.value := head];
      tail := head;
      head := link[head.value];
      link := link[tail.value := None];
      queue := q;
    }

    /** pm_schedule; an empty list is a null dereference. When nobody is left on a dangling list, the empty record
        becomes current, until a process has been activated again. */
    method Schedule() returns (ok: bool)
      requires Sound() || Dangling()
      modifies this
      ensures ok <==> old(queue) != []
      ensures ok && old(Valid()) ==> Valid() && Abs() == ProcessModel.Schedule(old(Abs()))
      ensures ok && old(Dangling()) ==> Dwindled(old(Abs()))
      ensures ok && old(Sound()) && old(adrift) ==> Valid() && Abs() == Resumed(old(Abs()))
    {
      if !adrift && procs[cur].status == Running { SetProc(cur, procs[cur].(status := Ready)); }
      if head == None { return false; }
      Turn();
      ok := true;
      if head.Some? {
        cur, adrift := head.value, false;
        SetProc(cur, procs[cur].(status := Running));
      } else {
        adrift := true;
      }
    }

    /** The search loop of pm_deactivate: `c` is the process looked for, `prev` the one before it. */
    method Locate(p: Slot) returns (prev: Ptr, c: Ptr, ghost k: nat)
      requires Valid()
      ensures p in queue ==>
                && k < |queue| && queue[k] == p && p !in queue[..k]
                && c == Some(p) && prev == (if k == 0 then None else Some(queue[k - 1]))
      ensures p !in queue ==> c == None
    {
      prev, c, k := None, head, 0;
      while c.Some? && c.value != p
        invariant k <= |queue| && p !in queue[..k]
        invariant c == if k < |queue| then Some(queue[k]) else None
        invariant prev == if k == 0 then None else Some(queue[k - 1])
        decreases |queue| - k
      {
        assert LinkAt(link, queue, k);
        prev := c;
        c := link[c.value];
        k := k + 1;
      }
    }

    /** The first part of pm_deactivate. The tail pointer is not adjusted, so the list survives exactly when
        the process is not the last one. */
    method Unlink(p: Slot) returns (ok: bool)
      requires Valid()
      modifies this`link, this`head, this`queue
      ensures ok <==> p in old(queue)
      ensures ok ==> queue == Without(old(queue), p)
      ensures ok ==> (Valid() <==> !IsLast(old(queue), p)) && (Dangling() <==> IsLast(old(queue), p))
    {
      ghost var k;
      var prev, c;
      prev, c, k := Locate(p);
      if c == None { return false; }
      ghost var link0, head0, queue0 := link, head, queue;
      queue := queue[..k] + queue[k + 1..];
      if prev.Some? {
        link := link[prev.value := link[c.value]];
      } else {
        head := link[c.value];
      }
      ok := true;
      LinkedRemove(link0, head0, tail, queue0, k);
      WithoutAt(queue0, k);
    }

    /** pm_deactivate */
    method Deactivate(p: Slot) returns (ok: bool)
      requires Valid()
      modifies this
      ensures ok <==> ProcessModel.Deactivate(old(Abs()), p).Some?
      ensures ok ==> (Valid() <==> !IsLast(old(queue), p)) && (Dangling() <==> IsLast(old(queue), p))
      ensures ok && (Valid() || p != old(cur)) ==> Abs() == ProcessModel.Deactivate(old(Abs()), p).value
      ensures ok && Dangling() && p == old(cur) ==>
                Without(old(queue), p) != [] && Dwindled(old(Abs()).(queue := Without(old(queue), p)))
    {
      ok := Unlink(p);
      if ok && p == cur { ok := Schedule(); }
    }

    /** pm_block */
    method Block(p: Slot, reason: Reason) returns (ok: bool, blocked: bool)
      requires Valid()
      modifies this
      ensures blocked <==> old(procs)[p].status != Blocked
      ensures ok <==> ProcessModel.Block(old(Abs()), p, reason).Some?
      ensures ok ==> (Valid() <==> !(blocked && IsLast(old(queue), p)))
      ensures ok && blocked ==> (Dangling() <==> IsLast(old(queue), p))
      ensures ok && (Valid() || p != old(cur)) ==> Abs() == ProcessModel.Block(old(Abs()), p, reason).value
      ensures ok && Dangling() && p == old(cur) ==>
                && Without(old(queue), p) != []
                && Dwindled(old(Abs()).(procs := old(procs)[p := old(procs)[p].(status := Blocked, block := reason)],
                                        queue := Without(old(queue), p)))
    {
      if procs[p].status == Blocked { return true, false; }
      blocked := true;
      SetProc(p, procs[p].(status := Blocked, block := reason));
      ok := Deactivate(p);
    }

    /** pm_unblock */
    method Unblock(p: Slot)
      requires (Sound() || Dangling()) && p !in queue
      modifies this
      ensures adrift == old(adrift)
      ensures old(Sound()) || old(queue) == [] ==> Sound() && Abs() == ProcessModel.Unblock(old(Abs()), p)
      ensures old(Dangling()) && old(queue) != [] ==>
                Dangling() && Abs() == ProcessModel.Unblock(old(Abs()), p).(queue := old(queue))
    {
      SetProc(p, procs[p].(status := Ready, block := NotBlocked));
      Activate(p);
    }

    /** pm_get_proc */
    method GetProc(pid: nat) returns (r: Ptr)
      ensures r == Find(procs, pid)
    {
      var i: nat := FIRST;
      while i < MAX_PROCS
        invariant i <= MAX_PROCS && FindFrom(procs, pid, i) == Find(procs, pid)
      {
        if procs[i].pid == pid { return Some(i); }
        i := i + 1;
      }
      r := None;
    }

    /** get_empty_proc */
    method GetEmpty() returns (r: Ptr)
      ensures r == Empty(procs)
    {
      var i: nat := FIRST;
      while i < MAX_PROCS
        invariant i <= MAX_PROCS && EmptyFrom(procs, i) == Empty(procs)
      {
        if procs[i].status == Free { return Some(i); }
        i := i + 1;
      }
      r := None;
    }

    method InitProc(p: Slot, status: Status)
      requires Valid() && p !in queue
      modifies this
      ensures Valid() && Abs() == Born(old(Abs()), p, status)
    {
      SetProc(p, NewProc(nextPid, status));
      nextPid := (nextPid + 1) % WORD;
      if status == Ready { Activate(p); }
    }

    /** pm_create */
    method Create(status: Status) returns (ok: bool)
      requires Valid() && Inv(Abs())
      modifies this
      ensures ok <==> ProcessModel.Create(old(Abs()), status).Some?
      ensures ok ==> Valid() && Abs() == ProcessModel.Create(old(Abs()), status).value
    {
      var p := GetEmpty();
      if p == None { return false; }
      assert SlotInv(Abs(), p.value);
      InitProc(p.value, status);
      ok := true;
    }

    /** sys_fork */
    method Fork()
      requires Valid() && Inv(Abs())
      modifies this
      ensures Valid() && Abs() == ProcessModel.Fork(old(Abs()))
    {
      var p := GetEmpty();
      var child := nextPid;
      if p == None {
        SetProc(cur, procs[cur].(eax := -1));
        return;
      }
      assert SlotInv(Abs(), p.value);
      InitProc(p.value, Ready);
      SetProc(cur, procs[cur].(eax := child));
    }

    /** sys_waitpid */
    method WaitPid(pid: nat) returns (ok: bool)
      requires Valid() && Inv(Abs()) && cur != IDLE
      modifies this
      ensures ok <==> Wait(old(Abs()), pid).Some?
      ensures ok ==> Valid() && Abs() == Wait(old(Abs()), pid).value
    {
      var other := GetProc(pid);
      if other == None { return false; }
      var o := other.value;
      if procs[o].status == Free || procs[o].waitProc != 0 {
        SetProc(cur, procs[cur].(eax := -1));
        return true;
      }
      NotLast(Abs());
      SetProc(o, procs[o].(waitProc := procs[cur].pid));
      SetProc(cur, procs[cur].(waitFor := pid, eax := 0));
      var b;
      ok, b := Block(cur, WaitProc);
    }

    /** pm_destroy wakes the waiter of process `p`. */
    method HandOff(p: Slot)
      requires Valid() || (Dangling() && queue != [])
      requires procs[p].waitProc != 0 ==> Find(procs, procs[p].waitProc).Some? && Find(procs, procs[p].waitProc).value !in queue
      modifies this
      ensures WakeWaiter(old(Abs()), p).Some?
      ensures old(Valid()) ==> Valid() && Abs() == WakeWaiter(old(Abs()), p).value
      ensures old(Dangling()) ==> Dangling() && Abs() == WakeWaiter(old(Abs()), p).value.(queue := old(queue))
    {
      if procs[p].waitProc != 0 {
        var other := GetProc(procs[p].waitProc);
        SetProc(other.value, procs[other.value].(eax := procs[p].exitStatus));
        Unblock(other.value);
      }
    }

    /** pm_destroy clears the claim of process `p` on the process it waited for. */
    method Forget(p: Slot) returns (ok: bool)
      modifies this`procs
      ensures ok <==> DropWait(old(Abs()), p).Some?
      ensures ok ==> Abs() == DropWait(old(Abs()), p).value
    {
      if procs[p].waitFor != 0 {
        var other := GetProc(procs[p].waitFor);
        if other == None { return false; }
        if procs[other.value].waitProc == procs[p].pid {
          SetProc(other.value, procs[other.value].(waitProc := 0));
        }
      }
      ok := true;
    }

    /** pm_destroy of any process. Destroying the last one leaves the list dangling, and its waiter is lost. */
    method Destroy(p: Slot) returns (ok: bool)
      requires Valid() && Inv(Abs()) && p != IDLE
      modifies this
      ensures ok <==> ProcessModel.Destroy(old(Abs()), p).Some?
      ensures ok ==> (Valid() <==> !IsLast(old(queue), p)) && (Dangling() <==> IsLast(old(queue), p))
      ensures ok && Valid() ==> Abs() == ProcessModel.Destroy(old(Abs()), p).value
      ensures ok && Dangling() ==> Abs() == ProcessModel.Destroy(old(Abs()), p).value.(queue := Without(old(queue), p))
    {
      ghost var s := Abs();
      NotLast(s);
      ok := Deactivate(p);
      if !ok { return; }
      WaiterUnqueued(s, p);
      assert Abs() == ProcessModel.Deactivate(s, p).value;
      ok := Bury(p);
    }

    /** The part of pm_destroy behind pm_deactivate. */
    method Bury(p: Slot) returns (ok: bool)
      requires Valid() || (Dangling() && queue != [])
      requires WaiterReady(Abs(), p)
      modifies this
      ensures ok <==> Buried(old(Abs()), p).Some?
      ensures ok && old(Valid()) ==> Valid() && Abs() == Buried(old(Abs()), p).value
      ensures ok && old(Dangling()) ==> Dangling() && Abs() == Buried(old(Abs()), p).value.(queue := old(queue))
    {
      SetProc(p, procs[p].(status := Free));
      HandOff(p);
      ok := Forget(p);
    }

    /** sys_exit */
    method Exit(status: int) returns (ok: bool)
      requires Valid() && Inv(Abs()) && cur != IDLE
      modifies this
      ensures ok <==> ProcessModel.Exit(old(Abs()), status).Some?
      ensures ok ==> Valid() && Abs() == ProcessModel.Exit(old(Abs()), status).value
    {
      ghost var s := Abs();
      NotLast(s);
      SetProc(cur, procs[cur].(exitStatus := status));
      ExitingInv(s, status);
      DestroyInv(Exiting(s, status), s.cur);
      ok := Destroy(cur);
      if ok { ok := Schedule(); }
    }

    /** timer_sleep of the current process */
    method TimerSleep(msec: nat) returns (ok: bool)
      requires Valid() && Inv(Abs()) && cur != IDLE
      modifies this
      ensures ok <==> Sleep(old(Abs()), msec).Some?
      ensures ok ==> Valid() && Abs() == Sleep(old(Abs()), msec).value
    {
      var p := cur;
      NotLast(Abs());
      var blocked;
      ok, blocked := Block(p, Sleeping);
      if ok && blocked {
        var wakeup := WakeTick(ticks, msec);
        SetProc(p, procs[p].(wakeup := wakeup));
        if nextWakeup > wakeup { nextWakeup := wakeup; }
      }
    }

    /** timer_irq */
    method TimerIrq()
      requires Valid() && Inv(Abs())
      modifies this
      ensures Valid() && Tick(old(Abs()), false) == Some(Abs())
    {
      ghost var s := Abs();
      TickInv(s);
      ticks := ticks + 1;
      if ticks >= nextWakeup {
        nextWakeup := NEVER;
        ghost var s1 := Abs();
        ScanStart(s, s1);
        var i: nat := FIRST;
        while i < MAX_PROCS
          invariant i <= MAX_PROCS && Valid() && ScanInv(Abs(), i)
          invariant WakeScan(Abs(), i) == WakeScan(s1, FIRST)
        {
          WakeSlotInv(Abs(), i, i + 1);
          WakeOne(i);
          i := i + 1;
        }
      }
      if procs[cur].status != Ready { var _ := Schedule(); }
    }

    /** ipc_send by the current process: enqueue, then serve a receiver that is already waiting. */
    method IpcSend(to: Slot, msg: Msg) returns (answer: Answer)
      requires Valid() && Inv(Abs())
      modifies this
      ensures Valid() && Abs() == Send(old(Abs()), to, msg)
      ensures answer == SendAnswer(old(Abs()), to)
      ensures answer.Invalid? <==> old(procs)[to].status == Free
      ensures answer.Again? <==> old(procs)[to].status != Free && |old(procs)[to].mailbox| == MAILBOX
      ensures Mail(procs[to]) == Mail(old(procs)[to])
                                 + if answer.Done? then [msg.(sender := old(procs)[old(cur)].pid)] else []
    {
      var m := msg.(sender := procs[cur].pid);
      assert SlotInv(Abs(), to) && MailOk(procs[to]);
      if procs[to].status == Free {
        answer := Invalid;
      } else if |procs[to].mailbox| >= MAILBOX {
        answer := Again;
      } else {
        SetProc(to, procs[to].(mailbox := procs[to].mailbox + [m]));
        answer := Done;
      }
      if procs[to].status == Blocked && procs[to].block == Receiving {
        if procs[to].waiting { SetProc(to, Take(procs[to])); }
        SetProc(to, procs[to].(waiting := false));
        Unblock(to);
      }
    }

    /** ipc_receive by the current process */
    method IpcReceive(block: bool) returns (ok: bool, got: Option<Msg>)
      requires Valid() && Inv(Abs()) && cur != IDLE
      modifies this
      ensures ok <==> Receive(old(Abs()), block).Some?
      ensures ok ==> Valid() && Abs() == Receive(old(Abs()), block).value
      ensures got == if old(procs)[old(cur)].mailbox == [] then None else Some(old(procs)[old(cur)].mailbox[0])
    {
      var p := procs[cur];
      assert SlotInv(Abs(), cur);
      if p.mailbox != [] {
        SetProc(cur, Take(p));
        return true, Some(p.mailbox[0]);
      }
      got := None;
      if block {
        NotLast(Abs());
        SetProc(cur, p.(waiting := true));
        var b;
        ok, b := Block(cur, Receiving);
      } else {
        ok := true;
      }
    }

    /** Any step the kernel takes: the linked records do what the state machine does. */
    method Step(op: Op) returns (ok: bool)
      requires Valid() && Inv(Abs()) && Enabled(Abs(), op)
      modifies this
      ensures ok <==> ProcessModel.Step(old(Abs()), op).Some?
      ensures ok ==> Valid() && Inv(Abs()) && Abs() == ProcessModel.Step(old(Abs()), op).value
    {
      StepInv(Abs(), op);
      NotLast(Abs());
      var b, a, m;
      match op
      case CreateOp(ready) => ok := Create(if ready then Ready else Blocked);
      case ForkOp => Fork(); ok := true;
      case YieldOp => ok := Schedule();
      case TickOp => TimerIrq(); ok := true;
      case SleepOp(msec) => ok := TimerSleep(msec);
      case BlockFsOp => ok, b := Block(cur, WaitFs);
      case UnblockOp(p) => assert SlotInv(Abs(), p); Unblock(p); ok := true;
      case WaitOp(pid) => ok := WaitPid(pid);
      case ExitOp(status) => ok := Exit(status);
      case KillOp => ok := Destroy(cur);
      case SendOp(pid, msg) =>
        var to := GetProc(pid);
        ok := to.Some?;
        if ok { a := IpcSend(to.value, msg); }
      case ReceiveOp(block) => ok, m := IpcReceive(block);
    }

    /** A whole run. */
    method Run(ops: seq<Op>) returns (ok: bool)
      requires Valid() && Inv(Abs()) && Possible(Abs(), ops)
      modifies this
      ensures ok <==> ProcessRuns.Run(old(Abs()), ops).Some?
      ensures ok ==> Valid() && Inv(Abs()) && Abs() == ProcessRuns.Run(old(Abs()), ops).value
    {
      ok := true;
      var i := 0;
      while i < |ops|
        invariant 0 <= i <= |ops| && Valid() && Inv(Abs()) && Possible(Abs(), ops[i..])
        invariant ProcessRuns.Run(Abs(), ops[i..]) == ProcessRuns.Run(old(Abs()), ops)
      {
        assert ops[i..][0] == ops[i] && ops[i..][1..] == ops[i + 1..];
        ok := Step(ops[i]);
        if !ok { return; }
        i := i + 1;
      }
    }

    /** The loop body of timer_irq */
    method WakeOne(i: Slot)
      requires Valid() && ScanInv(Abs(), i)
      modifies this
      ensures Valid() && Abs() == WakeSlot(old(Abs()), i)
    {
      if procs[i].wakeup != 0 {
        if procs[i].wakeup <= ticks {
          assert ScanOk(Abs(), i, i) && SlotInv(Abs(), i);
          SetProc(i, procs[i].(wakeup := 0));
          Unblock(i);
        } else if procs[i].wakeup < nextWakeup {
          nextWakeup := procs[i].wakeup;
        }
      }
    }
  }

  /** The current process, if it is running, is merely ready from now on. */
  function Demoted(s: State): Table {
    if s.procs[s.cur].status == Running then s.procs[s.cur := s.procs[s.cur].(status := Ready)] else s.procs
  }

  /** pm_schedule on a dangling list of several processes: the front is lost, the next one is current. */
  function StaleSchedule(s: State): State
    requires |s.queue| > 1
  {
    var q, procs := s.queue[1..], Demoted(s);
    s.(procs := procs[q[0] := procs[q[0]].(status := Running)], queue := q, cur := q[0])
  }

  /** pm_schedule on a dangling list of one process: nobody is left, and no process of the table is current. */
  function Deserted(s: State): State {
    s.(procs := Demoted(s), queue := [])
  }

  /** pm_schedule while the empty record is current: it has nothing to lose. */
  function Resumed(s: State): State
    requires s.queue != []
  {
    var q := Rotate(s.queue);
    s.(procs := s.procs[q[0] := s.procs[q[0]].(status := Running)], queue := q, cur := q[0])
  }

  function StaleTurns(s: State, n: nat): State
    requires n < |s.queue|
    decreases n
  {
    if n == 0 then s else StaleTurns(StaleSchedule(s), n - 1)
  }

  /** On a dangling list every process gets one more turn, in order; after the last one the list is empty and nobody
      is running. */
  lemma {:induction false} LastRound(s: State, n: nat)
    requires n < |s.queue|
    ensures var s' := StaleTurns(s, n);
            && s'.queue == s.queue[n..]
            && (n > 0 ==> s'.cur == s.queue[n] && s'.procs[s'.cur].status == Running)
            && (n + 1 == |s.queue| ==> Deserted(s').queue == [] && Deserted(s').procs[s'.cur].status != Running)
    decreases n
  {
    if n > 0 {
      assert s.queue[1..][n - 1..] == s.queue[n..];
      LastRound(StaleSchedule(s), n - 1);
    }
  }

  /** A dangling list runs out turn by turn; at its end a further turn is a null dereference. */
  method RunOut(k: Kernel)
    requires k.Dangling() && k.queue != []
    modifies k
    ensures k.Dangling() && k.adrift && k.queue == []
    ensures k.Abs() == Deserted(StaleTurns(old(k.Abs()), |old(k.queue)| - 1))
  {
    ghost var end := Deserted(StaleTurns(k.Abs(), |k.queue| - 1));
    while !k.adrift
      invariant k.Dangling()
      invariant if k.adrift then k.Abs() == end
                else k.queue != [] && Deserted(StaleTurns(k.Abs(), |k.queue| - 1)) == end
      decreases !k.adrift, |k.queue|
    {
      var _ := k.Schedule();
    }
  }

  predicate IsLast(q: seq<Slot>, p: Slot) { q != [] && q[|q| - 1] == p }

  /** What pm_destroy makes of the state behind pm_deactivate. */
  function Buried(s: State, p: Slot): Option<State> {
    match WakeWaiter(s.(procs := s.procs[p := s.procs[p].(status := Free)]), p)
    case None => None
    case Some(s1) => DropWait(s1, p)
  }

  /** The waiter of process `p`, if any, is found and not on the ready list. */
  ghost predicate WaiterReady(s: State, p: Slot) {
    var procs: Table := s.procs[p := s.procs[p].(status := Free)];
    procs[p].waitProc != 0 ==>
      var w := Find(procs, procs[p].waitProc); w.Some? && w.value !in s.queue
  }

  /** When the waiter is looked up, it is ready, and the list is not empty. */
  lemma WaiterUnqueued(s: State, p: Slot)
    requires Inv(s) && p != IDLE && p in s.queue
    ensures ProcessModel.Deactivate(s, p).Some?
    ensures ProcessModel.Deactivate(s, p).value.queue != [] && WaiterReady(ProcessModel.Deactivate(s, p).value, p)
  {
    UnlinkedFacts(s, p);
    assert SlotInv(s, p);
    if s.procs[p].waitProc != 0 {
      var w := WaiterFound(s, p);
      assert SlotInv(Unlinked(s, p), w) && Similar(s.procs[w], Unlinked(s, p).procs[w]);
    }
  }

  /** The current process, when it is not the idle process, has the idle process behind it. */
  lemma NotLast(s: State)
    requires QueueInv(s)
    ensures s.cur != IDLE ==> |s.queue| > 1 && !IsLast(s.queue, s.cur)
  {
  }

  /** From boot: a process is created and scheduled, forks, and its child at the end of the list is destroyed. */
  method DestroyLast() returns (k: Kernel)
    ensures fresh(k) && k.queue == [1, 0] && k.Dangling() && !k.Valid()
  {
    k := new Kernel();
    ThreeQueued();
    var ok := k.Create(Ready);
    ok := k.Schedule();
    k.Fork();
    ok := k.Destroy(2);
  }

  /** From there, two turns later no process of the table is current. */
  method DestroyedLast() returns (k: Kernel)
    ensures fresh(k) && k.adrift && k.queue == []
  {
    k := DestroyLast();
    RunOut(k);
  }
}
