/** The process core as a state machine: kernel/pm.c, kernel/timer.c and kernel/ipc.c on values.
    The ready list is a sequence here; `ProcessTable` keeps it as linked records. */
module ProcessModel {
  import opened Common

  const MAX_PROCS := 256
  const IDLE: Slot := 0
  const FIRST: nat := 0
  const MAILBOX := 24
  const TIMER_HZ := 100
  const NEVER: nat := 0xFFFF_FFFF_FFFF_FFFF

  datatype Status = Free | Ready | Running | Blocked
  datatype Reason = NotBlocked | Receiving | Sleeping | WaitFs | Init | WaitProc

  datatype Msg = Msg(sender: nat, cmd: nat, subcmd: nat, param1: nat, param2: nat)

  /** struct proc: `waiting` stands for a non-null msg_waitbuf, `eax` for the system call result and
      `received` for the message buffers of the process, in the order the kernel filled them. */
  datatype Proc = Proc(pid: nat, status: Status, block: Reason, waitProc: nat, waitFor: nat,
                       exitStatus: int, wakeup: nat, eax: int, mailbox: seq<Msg>, waiting: bool,
                       received: seq<Msg>)

  type Slot = i: int | 0 <= i < MAX_PROCS
  type Table = t: seq<Proc> | |t| == MAX_PROCS witness seq(MAX_PROCS, _ => NewProc(0, Free))

  datatype State = State(procs: Table, queue: seq<Slot>, cur: Slot, nextPid: nat, ticks: nat, nextWakeup: nat)

  function NewProc(pid: nat, status: Status): Proc {
    Proc(pid, status, if status == Blocked then Init else NotBlocked, 0, 0, -1, 0, 0, [], false, [])
  }

  // ---------- lookups ----------

  /** pm_get_proc: the first slot with this pid, in use or not. */
  function FindFrom(procs: Table, pid: nat, i: nat): (r: Option<Slot>)
    requires i <= MAX_PROCS
    ensures r.Some? ==> i <= r.value && procs[r.value].pid == pid
    ensures forall j | i <= j < (if r.Some? then r.value else MAX_PROCS) :: procs[j].pid != pid
    decreases MAX_PROCS - i, procs
  {
    if i == MAX_PROCS then None
    else if procs[i].pid == pid then Some(i)
    else FindFrom(procs, pid, i + 1)
  }

  function Find(procs: Table, pid: nat): (r: Option<Slot>)
    ensures r.Some? ==> procs[r.value].pid == pid
    ensures forall j | 0 <= j < (if r.Some? then r.value else MAX_PROCS) :: procs[j].pid != pid
  {
    FindFrom(procs, pid, FIRST)
  }

  /** get_empty_proc: the first free slot. */
  function EmptyFrom(procs: Table, i: nat): (r: Option<Slot>)
    requires i <= MAX_PROCS
    ensures r.Some? ==> i <= r.value && procs[r.value].status == Free
    ensures forall j | i <= j < (if r.Some? then r.value else MAX_PROCS) :: procs[j].status != Free
    decreases MAX_PROCS - i, procs
  {
    if i == MAX_PROCS then None
    else if procs[i].status == Free then Some(i)
    else EmptyFrom(procs, i + 1)
  }

  function Empty(procs: Table): (r: Option<Slot>)
    ensures r.Some? ==> procs[r.value].status == Free
    ensures forall j | 0 <= j < (if r.Some? then r.value else MAX_PROCS) :: procs[j].status != Free
  {
    EmptyFrom(procs, FIRST)
  }

  // ---------- the ready list ----------

  function Without(q: seq<Slot>, p: Slot): seq<Slot> {
    if q == [] then [] else if q[0] == p then q[1..] else [q[0]] + Without(q[1..], p)
  }

  function Rotate(q: seq<Slot>): seq<Slot>
    requires q != []
  {
    q[1..] + [q[0]]
  }

  function Activate(s: State, p: Slot): State {
    s.(queue := s.queue + [p])
  }

  /** pm_schedule: a running current process becomes ready, the head of the list goes to its end. */
  function Schedule(s: State): State
    requires s.queue != []
  {
    var procs := if s.procs[s.cur].status == Running then s.procs[s.cur := s.procs[s.cur].(status := Ready)] else s.procs;
    var q := Rotate(s.queue);
    s.(procs := procs[q[0] := procs[q[0]].(status := Running)], queue := q, cur := q[0])
  }

  /** pm_deactivate: unlinking a process that is not in the list dereferences a null pointer. */
  function Deactivate(s: State, p: Slot): Option<State> {
    if p !in s.queue then None
    else
      var s1 := s.(queue := Without(s.queue, p));
      if p != s.cur then Some(s1)
      else if s1.queue == [] then None
      else Some(Schedule(s1))
  }

  /** pm_block */
  function Block(s: State, p: Slot, reason: Reason): Option<State> {
    if s.procs[p].status == Blocked then Some(s)
    else Deactivate(s.(procs := s.procs[p := s.procs[p].(status := Blocked, block := reason)]), p)
  }

  /** pm_unblock */
  function Unblock(s: State, p: Slot): State {
    Activate(s.(procs := s.procs[p := s.procs[p].(status := Ready, block := NotBlocked)]), p)
  }

  function SetEax(s: State, p: Slot, value: int): State {
    s.(procs := s.procs[p := s.procs[p].(eax := value)])
  }

  // ---------- birth and death ----------

  /** A new process in slot `p`, queued when it is ready. */
  function Born(s: State, p: Slot, status: Status): State {
    var s1 := s.(procs := s.procs[p := NewProc(s.nextPid, status)], nextPid := (s.nextPid + 1) % WORD);
    if status == Ready then Activate(s1, p) else s1
  }

  /** pm_create, a panic when the table is full. */
  function Create(s: State, status: Status): Option<State> {
    match Empty(s.procs)
    case None => None
    case Some(p) => Some(Born(s, p, status))
  }

  /** sys_fork; the parent gets the child's pid, or -1 when the table is full. */
  function Fork(s: State): State {
    match Empty(s.procs)
    case None => SetEax(s, s.cur, -1)
    case Some(p) => SetEax(Born(s, p, Ready), s.cur, s.nextPid)
  }

  /** The waiter of a dying process is handed its exit status and made ready. */
  function WakeWaiter(s: State, p: Slot): Option<State> {
    if s.procs[p].waitProc == 0 then Some(s)
    else match Find(s.procs, s.procs[p].waitProc)
      case None => None
      case Some(w) => Some(Unblock(SetEax(s, w, s.procs[p].exitStatus), w))
  }

  /** The process a dying process once waited for forgets it; the lookup may find nothing any more. */
  function DropWait(s: State, p: Slot): Option<State> {
    if s.procs[p].waitFor == 0 then Some(s)
    else match Find(s.procs, s.procs[p].waitFor)
      case None => None
      case Some(o) =>
        Some(if s.procs[o].waitProc == s.procs[p].pid then s.(procs := s.procs[o := s.procs[o].(waitProc := 0)]) else s)
  }

  /** pm_destroy */
  function Destroy(s: State, p: Slot): Option<State> {
    match Deactivate(s, p)
    case None => None
    case Some(s1) =>
      match WakeWaiter(s1.(procs := s1.procs[p := s1.procs[p].(status := Free)]), p)
      case None => None
      case Some(s2) => DropWait(s2, p)
  }

  /** sys_exit: note the status, destroy the caller, schedule once more. */
  function Exit(s: State, status: int): Option<State> {
    match Destroy(s.(procs := s.procs[s.cur := s.procs[s.cur].(exitStatus := status)]), s.cur)
    case None => None
    case Some(s1) => if s1.queue == [] then None else Some(Schedule(s1))
  }

  /** sys_waitpid: a pid found nowhere in the table is a null dereference. */
  function Wait(s: State, pid: nat): Option<State> {
    match Find(s.procs, pid)
    case None => None
    case Some(o) =>
      if s.procs[o].status == Free || s.procs[o].waitProc != 0 then Some(SetEax(s, s.cur, -1))
      else
        var s1 := s.(procs := s.procs[o := s.procs[o].(waitProc := s.procs[s.cur].pid)]);
        var s2 := s1.(procs := s1.procs[s.cur := s1.procs[s.cur].(waitFor := pid, eax := 0)]);
        Block(s2, s.cur, WaitProc)
  }

  // ---------- the timer ----------

  /** timer_sleep's wake-up tick: 32-bit product, 32-bit sum. */
  function WakeTick(ticks: nat, msec: nat): nat {
    (ticks + msec * TIMER_HZ % WORD / 1000) % WORD
  }

  /** timer_sleep for the current process */
  function Sleep(s: State, msec: nat): Option<State> {
    if s.procs[s.cur].status == Blocked then Some(s)
    else match Block(s, s.cur, Sleeping)
      case None => None
      case Some(s1) =>
        var w := WakeTick(s.ticks, msec);
        Some(s1.(procs := s1.procs[s.cur := s1.procs[s.cur].(wakeup := w)],
                 nextWakeup := if s1.nextWakeup > w then w else s1.nextWakeup))
  }

  /** The scan of timer_irq from slot `i` on. */
  function WakeScan(s: State, i: nat): State
    requires i <= MAX_PROCS
    decreases MAX_PROCS - i, s.procs
  {
    if i == MAX_PROCS then s else WakeScan(WakeSlot(s, i), i + 1)
  }

  function WakeSlot(s: State, i: Slot): State {
    var w := s.procs[i].wakeup;
    if w == 0 then s
    else if w <= s.ticks then Unblock(s.(procs := s.procs[i := s.procs[i].(wakeup := 0)]), i)
    else if w < s.nextWakeup then s.(nextWakeup := w)
    else s
  }

  /** timer_irq up to the call of pm_update; `full` scans although the cached minimum says it need not. */
  function Wake(s: State, full: bool): State {
    var s1 := s.(ticks := s.ticks + 1);
    if full || s1.ticks >= s1.nextWakeup then WakeScan(s1.(nextWakeup := NEVER), FIRST) else s1
  }

  /** timer_irq; pm_update schedules unless the current process is merely ready. */
  function Tick(s: State, full: bool): Option<State> {
    var s1 := Wake(s, full);
    if s1.procs[s1.cur].status == Ready then Some(s1)
    else if s1.queue == [] then None
    else Some(Schedule(s1))
  }

  // ---------- messages ----------

  /** sys_send: 0, EINVAL or EAGAIN; a receiver blocked in sys_receive is served at once. */
  datatype Answer = Done | Invalid | Again

  function SendAnswer(s: State, to: Slot): Answer {
    if s.procs[to].status == Free then Invalid
    else if |s.procs[to].mailbox| >= MAILBOX then Again
    else Done
  }

  function Stamped(s: State, msg: Msg): Msg {
    msg.(sender := s.procs[s.cur].pid)
  }

  /** The oldest message of a process is copied into its message buffer. */
  function Take(p: Proc): Proc {
    if p.mailbox == [] then p else p.(mailbox := p.mailbox[1..], received := p.received + [p.mailbox[0]])
  }

  function Send(s: State, to: Slot, msg: Msg): State {
    var s1 := if SendAnswer(s, to) == Done
              then s.(procs := s.procs[to := s.procs[to].(mailbox := s.procs[to].mailbox + [Stamped(s, msg)])])
              else s;
    var p := s1.procs[to];
    if p.status == Blocked && p.block == Receiving then
      Unblock(s1.(procs := s1.procs[to := (if p.waiting then Take(p) else p).(waiting := false)]), to)
    else s1
  }

  /** sys_receive for the current process */
  function Receive(s: State, block: bool): Option<State> {
    var p := s.procs[s.cur];
    if p.status == Free then Some(s)
    else if p.mailbox != [] then Some(s.(procs := s.procs[s.cur := Take(p)]))
    else if block then Block(s.(procs := s.procs[s.cur := p.(waiting := true)]), s.cur, Receiving)
    else Some(s)
  }

  // ---------- steps and runs ----------

  datatype Op =
    | CreateOp(ready: bool)         // pm_create with PS_READY or PS_BLOCKED
    | ForkOp                        // sys_fork
    | YieldOp                       // sys_yield
    | TickOp                        // timer interrupt
    | SleepOp(msec: nat)            // timer_sleep(cur_proc, msec)
    | BlockFsOp                     // rq_block
    | UnblockOp(p: Slot)            // elf32_exec or rq_finish
    | WaitOp(pid: nat)              // sys_waitpid
    | ExitOp(status: int)           // sys_exit
    | KillOp                        // pm_destroy(cur_proc) on a bad system call or an exception
    | SendOp(pid: nat, msg: Msg)    // sys_send
    | ReceiveOp(block: bool)        // sys_receive

  /** One step; None is a kernel panic or a null dereference. */
  function Step(s: State, op: Op): Option<State> {
    match op
    case CreateOp(ready) => Create(s, if ready then Ready else Blocked)
    case ForkOp => Some(Fork(s))
    case YieldOp => if s.queue == [] then None else Some(Schedule(s))
    case TickOp => Tick(s, false)
    case SleepOp(msec) => Sleep(s, msec)
    case BlockFsOp => Block(s, s.cur, WaitFs)
    case UnblockOp(p) => Some(Unblock(s, p))
    case WaitOp(pid) => Wait(s, pid)
    case ExitOp(status) => Exit(s, status)
    case KillOp => Destroy(s, s.cur)
    case SendOp(pid, msg) =>
      (match Find(s.procs, pid)
       case None => None
       case Some(to) => Some(Send(s, to, msg)))
    case ReceiveOp(block) => Receive(s, block)
  }

  /** When the kernel takes a step: system calls come from the current process, which is never the
      idle process; a bare pm_unblock goes to a process blocked by its loader or a file request; and
      the pid counter has not wrapped. */
  predicate Enabled(s: State, op: Op) {
    match op
    case CreateOp(_) => s.nextPid + 1 < WORD
    case ForkOp => s.cur != IDLE && s.nextPid + 1 < WORD
    case YieldOp => true
    case TickOp => true
    case UnblockOp(p) => p != IDLE && s.procs[p].status == Blocked && s.procs[p].block in {Init, WaitFs}
    case _ => s.cur != IDLE
  }

  /** init_pm: slot i holds pid i, slot 0 becomes the idle process, queued but blocked, and current. */
  function Boot(): State {
    var table: Table := seq(MAX_PROCS, i requires 0 <= i < MAX_PROCS => NewProc(i, Free));
    State(table[0 := NewProc(0, Blocked)], [IDLE], IDLE, 1, 0, NEVER)
  }
}
