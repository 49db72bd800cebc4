/** Messages between processes over their ring buffers: ipc_send and ipc_receive of kernel/ipc.c, with the
    msgbuffer that init_proc and pm_fork create for every process. */
module ProcessMail {
  import opened Common
  import opened ProcessModel
  import opened ProcessInvariant
  import opened ProcessRuns
  import opened ProcessHistory
  import opened ProcessTable
  import opened Mailbox

  /** The msgbuffer pointers of all slots. */
  class Boxes {
    var box: seq<Box?>
    ghost var mails: seq<seq<Msg>>
    ghost var parts: set<object>   // what the boxes are made of

    ghost predicate Holds(i: Slot)
      requires |box| == MAX_PROCS == |mails|
      reads this, parts
    {
      box[i] != null ==>
        && box[i] in parts && box[i].ring in parts && box[i].ring.data in parts
        && box[i].Valid() && box[i].mail == mails[i]
    }

    ghost predicate Valid()
      reads this, parts
    {
      && |box| == MAX_PROCS == |mails| && this !in parts
      && (forall i: Slot, j: Slot :: Apart(box[i], box[j], i != j))
      && (forall i: Slot :: Holds(i))
    }

    constructor ()
      ensures Valid() && fresh(parts) && box[IDLE] != null && mails == seq(MAX_PROCS, _ => [])
    {
      var b := new Box();
      box := seq(MAX_PROCS, i => if i == IDLE then b else null);
      mails := seq(MAX_PROCS, _ => []);
      parts := {b, b.ring, b.ring.data};
    }

    /** rbuf_create for a new process */
    method Renew(p: Slot)
      requires Valid()
      modifies this
      ensures Valid() && fresh(parts - old(parts))
      ensures box[p] != null && box == old(box)[p := box[p]] && mails == old(mails)[p := []]
    {
      var b := new Box();
      ghost var was := box;
      box := box[p := b];
      mails := mails[p := []];
      parts := parts + {b, b.ring, b.ring.data};
      forall i: Slot ensures Holds(i) { assert i != p ==> box[i] == was[i] && old(Holds(i)); }
    }

    /** send of ipc.c on the box of a live process */
    method Put(p: Slot, m: Msg) returns (ok: bool)
      requires Valid() && box[p] != null && Fits32(m)
      modifies this`mails, parts
      ensures Valid() && ok == (|old(mails)[p]| < MAILBOX)
      ensures mails == if ok then old(mails)[p := old(mails)[p] + [m]] else old(mails)
    {
      assert Holds(p);
      ok := box[p].Send(m);
      if ok { mails := mails[p := mails[p] + [m]]; }
      forall i: Slot ensures Holds(i) { assert old(Holds(i)) && Apart(box[i], box[p], i != p); }
    }

    /** receive of ipc.c on the box of a live process */
    method Get(p: Slot) returns (handed: seq<Msg>)
      requires Valid() && box[p] != null
      modifies this`mails, parts
      ensures Valid()
      ensures var n := if old(mails)[p] == [] then 0 else 1;
              handed == old(mails)[p][..n] && mails == old(mails)[p := old(mails)[p][n..]]
    {
      assert Holds(p);
      var m := box[p].Receive();
      handed := if m.Some? then [m.value] else [];
      mails := mails[p := mails[p][|handed|..]];
      forall i: Slot ensures Holds(i) { assert old(Holds(i)) && Apart(box[i], box[p], i != p); }
    }

    /** ipc_send to process `p`: queue the message, then serve a receiver that is waiting. */
    method Send(p: Slot, m: Msg, waits: bool) returns (handed: seq<Msg>)
      requires Valid() && box[p] != null && Fits32(m)
      modifies this`mails, parts
      ensures Valid()
      ensures var mail := if |old(mails)[p]| < MAILBOX then old(mails)[p] + [m] else old(mails)[p];
              var n := if waits && mail != [] then 1 else 0;
              handed == mail[..n] && mails == old(mails)[p := mail[n..]]
    {
      var ok := Put(p, m);
      if waits { handed := Get(p); } else { handed := []; }
    }

    /** What a step does to the ring buffers. */
    method Carry(procs: Table, cur: Slot, op: Op, to: Option<Slot>, ghost s: State) returns (handed: seq<Msg>)
      requires Valid() && Matches(procs, mails, box) && (op.SendOp? ==> Fits32(op.msg))
      requires s.procs == procs && s.cur == cur && to == Concerned(s, op)
      requires procs[cur].pid < WORD && procs[cur].status != Free
      modifies this, parts
      ensures Valid() && fresh(parts - old(parts))
      ensures handed == Handed(s, op)
      ensures Carried(s, op, old(mails), old(box), mails, box)
    {
      handed := [];
      if to == None { return; }
      var p := to.value;
      assert MatchesAt(procs[p], mails[p], box[p]);
      if Birth(op) {
        Renew(p);
      } else if procs[p].status != Free {
        assert procs[p].mailbox + [] == procs[p].mailbox;
        if op.ReceiveOp? {
          handed := Get(p);
        } else {
          handed := Send(p, op.msg.(sender := procs[cur].pid), procs[p].status == Blocked && procs[p].block == Receiving);
        }
      }
    }
  }

  ghost predicate Apart(b: Box?, c: Box?, different: bool) {
    different && b != null && c != null ==> b != c && b.ring != c.ring && b.ring.data != c.ring.data
  }

  /** The ring buffer of every live process holds the messages of its mailbox. */
  ghost predicate Matches(procs: Table, mails: seq<seq<Msg>>, box: seq<Box?>) {
    |mails| == MAX_PROCS == |box| && forall i: Slot :: MatchesAt(procs[i], mails[i], box[i])
  }

  ghost predicate MatchesAt(p: Proc, mail: seq<Msg>, box: Box?) {
    p.status != Free ==> box != null && mail == p.mailbox
  }

  /** The slot a step sends to, receives in or gives to a new process. */
  function Concerned(s: State, op: Op): Option<Slot> {
    match op
    case CreateOp(_) => Empty(s.procs)
    case ForkOp => Empty(s.procs)
    case SendOp(pid, _) => Find(s.procs, pid)
    case ReceiveOp(_) => Some(s.cur)
    case _ => None
  }

  /** No other slot comes to life, and the messages of no other process change. */
  lemma Unconcerned(s: State, op: Op, i: Slot)
    requires Inv(s) && Enabled(s, op) && Step(s, op).Some? && Concerned(s, op) != Some(i)
    requires Step(s, op).value.procs[i].status != Free
    ensures s.procs[i].status != Free && Step(s, op).value.procs[i].mailbox == s.procs[i].mailbox
  {
    if s.procs[i].status == Free { NoBirth(s, op, i); }
    MailStep(s, op, i);
    assert Accepted(s, op, i) == [] && Delivered(s, op, i) == [];
    MailedSame(s.procs[i], Step(s, op).value.procs[i]);
  }

  lemma MailedSame(p: Proc, p': Proc)
    requires Mailed(p, p', [], [])
    ensures p'.mailbox == p.mailbox && p'.received == p.received
  {
    assert p.mailbox + [] == p.mailbox && [] + p'.mailbox == p'.mailbox;
  }

  lemma NextPidFits(s: State, op: Op)
    requires Inv(s) && s.nextPid < WORD && Step(s, op).Some?
    ensures Step(s, op).value.nextPid < WORD
  {
    if op.TickOp? { TickFrame(s); } else { StepFrame(s, op); }
  }

  /** The messages of the slot a step is concerned with, afterwards. */
  function Mail(s: State, op: Op, i: Slot): seq<Msg> {
    if Birth(op) then [] else (s.procs[i].mailbox + Accepted(s, op, i))[|Delivered(s, op, i)|..]
  }

  /** The message a step takes out of a ring buffer. */
  function Handed(s: State, op: Op): seq<Msg> {
    match Concerned(s, op)
    case None => []
    case Some(i) => Delivered(s, op, i)
  }

  lemma MailIs(s: State, op: Op, i: Slot)
    requires Inv(s) && Enabled(s, op) && Step(s, op).Some? && Concerned(s, op) == Some(i)
    requires Step(s, op).value.procs[i].status != Free
    ensures Birth(op) || s.procs[i].status != Free
    ensures Step(s, op).value.procs[i].mailbox == Mail(s, op, i)
  {
    if !Birth(op) {
      assert SlotInv(s, s.cur);
      MailStep(s, op, i);
    }
  }

  /** What a step does to the ring buffers. */
  ghost predicate Carried(s: State, op: Op, mails: seq<seq<Msg>>, box: seq<Box?>, mails': seq<seq<Msg>>, box': seq<Box?>)
    requires |mails| == MAX_PROCS == |box| && |mails'| == MAX_PROCS == |box'|
  {
    match Concerned(s, op)
    case None => mails' == mails && box' == box
    case Some(i) =>
      if Birth(op) then box'[i] != null && box' == box[i := box'[i]] && mails' == mails[i := []]
      else box' == box && mails' == if s.procs[i].status == Free then mails else mails[i := Mail(s, op, i)]
  }

  lemma MatchesStep(s: State, op: Op, mails: seq<seq<Msg>>, box: seq<Box?>,
                    mails': seq<seq<Msg>>, box': seq<Box?>)
    requires Inv(s) && Enabled(s, op) && Step(s, op).Some? && Matches(s.procs, mails, box)
    requires |mails'| == MAX_PROCS == |box'| && Carried(s, op, mails, box, mails', box')
    ensures Matches(Step(s, op).value.procs, mails', box')
  {
    var s' := Step(s, op).value;
    forall i: Slot ensures MatchesAt(s'.procs[i], mails'[i], box'[i]) {
      assert MatchesAt(s.procs[i], mails[i], box[i]);
      if s'.procs[i].status != Free {
        if Concerned(s, op) == Some(i) { MailIs(s, op, i); } else { Unconcerned(s, op, i); }
      }
    }
  }

  class Post {
    const kernel: Kernel
    const boxes: Boxes

    ghost predicate Valid()
      reads this, kernel, boxes, boxes.parts
    {
      && kernel.Valid() && Inv(kernel.Abs()) && kernel.nextPid < WORD && kernel !in boxes.parts
      && boxes.Valid() && Matches(kernel.procs, boxes.mails, boxes.box)
    }

    constructor ()
      ensures Valid() && kernel.Abs() == Boot()
      ensures fresh(kernel) && fresh(boxes) && fresh(boxes.parts)
    {
      kernel := new Kernel();
      boxes := new Boxes();
      new;
      BootInv();
    }

    method Concerning(op: Op) returns (p: Option<Slot>)
      ensures p == Concerned(kernel.Abs(), op)
    {
      match op
      case CreateOp(_) => p := kernel.GetEmpty();
      case ForkOp => p := kernel.GetEmpty();
      case SendOp(pid, _) => p := kernel.GetProc(pid);
      case ReceiveOp(_) => p := Some(kernel.cur);
      case _ => p := None;
    }

    /** Any step, with its messages in the ring buffers: they always hold what the mailboxes of the state machine
        hold, and what is handed out comes from them. */
    method Step(op: Op) returns (ok: bool, handed: seq<Msg>)
      requires Valid() && Enabled(kernel.Abs(), op) && (op.SendOp? ==> Fits32(op.msg))
      modifies kernel, boxes, boxes.parts
      ensures ok <==> ProcessModel.Step(old(kernel.Abs()), op).Some?
      ensures ok ==> Valid() && kernel.Abs() == ProcessModel.Step(old(kernel.Abs()), op).value
      ensures handed == Handed(old(kernel.Abs()), op)
      ensures fresh(boxes.parts - old(boxes.parts))
    {
      ghost var s, mails, box := kernel.Abs(), boxes.mails, boxes.box;
      CurFits(s);
      var p := Concerning(op);
      handed := boxes.Carry(kernel.procs, kernel.cur, op, p, s);
      ok := kernel.Step(op);
      if ok {
        NextPidFits(s, op);
        MatchesStep(s, op, mails, box, boxes.mails, boxes.box);
      }
    }
  }

  lemma CurFits(s: State)
    requires Inv(s) && s.nextPid < WORD
    ensures s.procs[s.cur].pid < WORD && s.procs[s.cur].status != Free
  {
    var used: nat :| PidInv(s.procs, s.nextPid, used);
    assert SlotInv(s, s.cur);
  }
}
