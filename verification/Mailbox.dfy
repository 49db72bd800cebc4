/** The mailbox of a process over its ring buffer: send and receive of kernel/ipc.c, with the buffer of
    24 messages that init_proc in kernel/pm.c creates. */
module Mailbox {
  import opened Common
  import opened RingBuffer
  import opened ProcessModel

  const MSG_SIZE := 20

  predicate Fits32(m: Msg) {
    m.sender < WORD && m.cmd < WORD && m.subcmd < WORD && m.param1 < WORD && m.param2 < WORD
  }

  /** A message as it lies in memory (share/include/kos/msg.h), and back. */
  function Pack(m: Msg): (r: seq<byte>)
    ensures |r| == MSG_SIZE
  {
    LE32(m.sender) + LE32(m.cmd) + LE32(m.subcmd) + LE32(m.param1) + LE32(m.param2)
  }

  function Unpack(b: seq<byte>): Msg
    requires |b| == MSG_SIZE
  {
    Msg(Get32(b, 0), Get32(b, 4), Get32(b, 8), Get32(b, 12), Get32(b, 16))
  }

  lemma UnpackPack(m: Msg)
    requires Fits32(m)
    ensures Unpack(Pack(m)) == m
  {
    var b := Pack(m);
    Get32OfLE32(b, 0, m.sender);
    Get32OfLE32(b, 4, m.cmd);
    Get32OfLE32(b, 8, m.subcmd);
    Get32OfLE32(b, 12, m.param1);
    Get32OfLE32(b, 16, m.param2);
  }

  function Packed(mail: seq<Msg>): (r: seq<seq<byte>>)
    ensures |r| == |mail|
  {
    seq(|mail|, k requires 0 <= k < |mail| => Pack(mail[k]))
  }

  lemma OneElem(d: seq<byte>)
    requires |d| == MSG_SIZE
    ensures Elems(d, MSG_SIZE, 1) == [d]
  {
    assert Elem(d, MSG_SIZE, 0) == d;
  }

  class Box {
    const ring: Ring
    ghost var mail: seq<Msg>   // what the buffer holds

    ghost predicate Valid()
      reads this, ring, ring.data
    {
      && ring.Valid() && ring.esize == MSG_SIZE && ring.maxcnt == MAILBOX && !ring.override
      && ring.Contents() == Packed(mail)
      && forall m | m in mail :: Fits32(m)
    }

    constructor ()
      ensures Valid() && mail == [] && fresh(ring) && fresh(ring.data)
    {
      var r := Ring.Create(MSG_SIZE, MAILBOX, false);
      ring := r;
      mail := [];
    }

    /** A message goes behind those already there; a full mailbox stays as it is. */
    method Send(m: Msg) returns (ok: bool)
      requires Valid() && Fits32(m)
      modifies this`mail, ring`widx, ring`count, ring.data
      ensures Valid() && ok == (|old(mail)| < MAILBOX)
      ensures mail == if ok then old(mail) + [m] else old(mail)
    {
      if ring.count == ring.maxcnt { return false; }
      var src := Pack(m);
      var n := ring.Write(src, 1);
      OneElem(src);
      assert Packed(mail + [m]) == Packed(mail) + [src];
      mail := mail + [m];
      return true;
    }

    /** The oldest message comes out as it was sent. */
    method Receive() returns (m: Option<Msg>)
      requires Valid()
      modifies this`mail, ring`ridx, ring`count, ring`r
      ensures Valid()
      ensures if old(mail) == [] then m == None && mail == [] else m == Some(old(mail)[0]) && mail == old(mail)[1..]
    {
      if ring.count == 0 { return None; }
      var dst, n := ring.Read(1);
      OneElem(dst);
      assert Packed(mail)[..1] == [Pack(mail[0])] && Packed(mail)[1..] == Packed(mail[1..]);
      UnpackPack(mail[0]);
      mail := mail[1..];
      return Some(Unpack(dst));
    }
  }
}
