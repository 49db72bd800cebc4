/** kernel/util/ringbuffer.c: a byte array used as a ring of fixed-size elements, proved to be a
    bounded queue for every element size and every mix of partial writes and reads. */
module RingBuffer {
  import opened Common

  // ---------- elements in a byte string ----------

  function Elem(d: seq<byte>, size: nat, i: nat): (r: seq<byte>)
    requires i * size + size <= |d|
    ensures |r| == size
  {
    d[i * size..i * size + size]
  }

  lemma MulStep(size: nat, i: nat, n: nat)
    requires i < n
    ensures i * size + size == (i + 1) * size <= n * size
  {
    var gap := n - (i + 1);
    assert n * size == (i + 1) * size + gap * size;
  }

  /** Overwriting element `w` leaves every other element alone. */
  lemma ElemReplaced(d: seq<byte>, d': seq<byte>, size: nat, n: nat, w: nat, x: seq<byte>, i: nat)
    requires |d| == n * size == |d'| && w < n && i < n && |x| == size
    requires w * size + size <= |d|
    requires d' == d[..w * size] + x + d[w * size + size..]
    ensures i * size + size <= |d|
    ensures Elem(d', size, i) == if i == w then x else Elem(d, size, i)
  {
    MulStep(size, i, n);
    if i < w { MulStep(size, i, w); }
    if w < i { MulStep(size, w, i); }
    PieceReplaced(d, d', w * size, x, i * size);
  }

  /** The same for byte positions. */
  lemma PieceReplaced(d: seq<byte>, d': seq<byte>, at: nat, x: seq<byte>, lo: nat)
    requires at + |x| <= |d| && lo + |x| <= |d| && d' == d[..at] + x + d[at + |x|..]
    ensures lo == at ==> d'[lo..lo + |x|] == x
    ensures lo + |x| <= at || at + |x| <= lo ==> d'[lo..lo + |x|] == d[lo..lo + |x|]
  {
  }

  /** Advancing a byte index by one element, modulo the length of the array. */
  lemma Advance(size: nat, n: nat, i: nat)
    requires size > 0 && i < n
    ensures n * size > 0
    ensures (i * size + size) % (n * size) == Next(n, i) * size
  {
    MulStep(size, i, n);
    MulStep(size, 0, n);
    if i + 1 == n {
      ModSmall(0, n * size);
    } else {
      MulStep(size, i + 1, n);
      ModSmall((i + 1) * size, n * size);
    }
  }

  lemma ModSmall(a: nat, m: nat)
    requires a < m
    ensures a % m == a && m % m == 0
  {
  }

  function Next(n: nat, i: nat): nat {
    if i + 1 == n then 0 else i + 1
  }

  /** The element `k` places behind element `r` in a ring of `n`. */
  function Wrap(n: nat, r: nat, k: nat): nat {
    if r + k < n then r + k else r + k - n
  }

  /** `count` elements from element `r` on. */
  function Queue(d: seq<byte>, size: nat, n: nat, r: nat, count: nat): (q: seq<seq<byte>>)
    requires |d| == n * size && r < n && count <= n
    ensures |q| == count
  {
    seq(count, k requires 0 <= k < count => MulStep(size, Wrap(n, r, k), n); Elem(d, size, Wrap(n, r, k)))
  }

  /** Writing behind the last element appends to the queue. */
  lemma QueueAppend(d: seq<byte>, d': seq<byte>, size: nat, n: nat, r: nat, count: nat, x: seq<byte>)
    requires |d| == n * size == |d'| && r < n && count < n && |x| == size
    requires var w := Wrap(n, r, count); w * size + size <= |d| && d' == d[..w * size] + x + d[w * size + size..]
    ensures Queue(d', size, n, r, count + 1) == Queue(d, size, n, r, count) + [x]
  {
    var w := Wrap(n, r, count);
    forall k | 0 <= k < count + 1
      ensures Queue(d', size, n, r, count + 1)[k] == (Queue(d, size, n, r, count) + [x])[k]
    {
      ElemReplaced(d, d', size, n, w, x, Wrap(n, r, k));
    }
  }

  /** Reading the first element takes it off the queue. */
  lemma QueueTail(d: seq<byte>, size: nat, n: nat, r: nat, count: nat)
    requires |d| == n * size && r < n && 0 < count <= n
    ensures r * size + size <= |d|
    ensures Queue(d, size, n, r, count) == [Elem(d, size, r)] + Queue(d, size, n, Next(n, r), count - 1)
  {
    MulStep(size, r, n);
    forall k | 0 <= k < count - 1
      ensures Wrap(n, r, k + 1) == Wrap(n, Next(n, r), k)
    {
    }
  }

  lemma NextWraps(n: nat, r: nat, count: nat)
    requires r < n && 0 < count <= n
    ensures Next(n, r) < n && Wrap(n, Next(n, r), count - 1) == Wrap(n, r, count)
  {
  }

  /** The first `num` elements of a byte string. */
  function Elems(d: seq<byte>, size: nat, num: nat): (q: seq<seq<byte>>)
    requires num * size <= |d|
    ensures |q| == num
  {
    seq(num, i requires 0 <= i < num => MulStep(size, i, num); Elem(d, size, i))
  }

  lemma ElemsStep(d: seq<byte>, size: nat, i: nat, num: nat)
    requires i < num && num * size <= |d|
    ensures i * size + size <= |d| && (i + 1) * size <= |d| && i * size <= |d|
    ensures Elems(d, size, i + 1) == Elems(d, size, i) + [Elem(d, size, i)]
  {
    MulStep(size, i, num);
  }

  lemma NotNothing(size: nat, n: nat)
    ensures size * n % WORD != 0 ==> size > 0 && n > 0
    ensures size * n == n * size
    ensures size * n % WORD == size * n <==> size * n < WORD
  {
    if size == 0 || n == 0 { assert size * n == 0; }
  }

  class Ring {
    const esize: nat
    const maxcnt: nat
    const override: bool
    const data: array<byte>
    var count: nat
    var ridx: nat
    var widx: nat
    ghost var r: nat   // the element at ridx

    ghost predicate Valid()
      reads this
    {
      && esize > 0 && r < maxcnt && count <= maxcnt
      && data.Length == maxcnt * esize
      && ridx == r * esize
      && widx == Wrap(maxcnt, r, count) * esize
    }

    ghost function Contents(): seq<seq<byte>>
      requires Valid()
      reads this, data
    {
      Queue(data[..], esize, maxcnt, r, count)
    }

    constructor (esize: nat, num: nat, override: bool, room: nat)
      ensures this.esize == esize && maxcnt == num && this.override == override
      ensures fresh(data) && data.Length == room && count == 0 && ridx == 0 && widx == 0 && r == 0
    {
      this.esize, maxcnt, this.override := esize, num, override;
      data := new byte[room];
      count, ridx, widx, r := 0, 0, 0, 0;
    }

    /** rbuf_create. The size of the array is computed in 32 bits, and for size 0 kmalloc gives none; the buffer
        is a ring of the elements asked for exactly if they take up less than 2^32 bytes. */
    static method Create(esize: nat, num: nat, override: bool) returns (ring: Ring?)
      requires esize < WORD && num < WORD
      ensures ring == null <==> esize * num % WORD == 0
      ensures ring != null ==>
                && fresh(ring) && fresh(ring.data)
                && ring.esize == esize && ring.maxcnt == num && ring.override == override && ring.data.Length == esize * num % WORD
                && (ring.Valid() <==> esize * num < WORD) && (ring.Valid() ==> ring.Contents() == [])
    {
      var room := esize * num % WORD;
      if room == 0 { return null; }
      NotNothing(esize, num);
      ring := new Ring(esize, num, override, room);
    }

    /** memcpy of one element into the buffer. */
    method CopyIn(at: nat, src: seq<byte>, off: nat)
      requires at + esize <= data.Length && off + esize <= |src|
      modifies data
      ensures data[..] == old(data[..])[..at] + src[off..off + esize] + old(data[..])[at + esize..]
    {
      forall j | 0 <= j < esize {
        data[at + j] := src[off + j];
      }
    }

    /** One round of the loop of rbuf_write: copy an element, advance the write index. */
    method Store(ghost w: nat, src: seq<byte>, i: nat)
      requires data.Length == maxcnt * esize && w < maxcnt && widx == w * esize && esize > 0
      requires w * esize + esize <= data.Length && i * esize + esize <= |src|
      modifies data, this`widx
      ensures data[..] == old(data[..])[..w * esize] + Elem(src, esize, i) + old(data[..])[w * esize + esize..]
      ensures widx == Next(maxcnt, w) * esize
    {
      CopyIn(widx, src, i * esize);
      Advance(esize, maxcnt, w);
      widx := widx + esize;
      widx := widx % (maxcnt * esize);
    }

    /** The loop of rbuf_write. */
    method StoreAll(src: seq<byte>, num: nat)
      requires Valid() && num * esize <= |src|
      modifies data, this`widx
      ensures count + num <= maxcnt ==>
                && widx == Wrap(maxcnt, r, count + num) * esize
                && Queue(data[..], esize, maxcnt, r, count + num) == old(Contents()) + Elems(src, esize, num)
    {
      ghost var fits, w, queue := count + num <= maxcnt, Wrap(maxcnt, r, count), Contents();
      var i := 0;
      assert Elems(src, esize, 0) == [] && queue + [] == queue;
      while i < num
        invariant 0 <= i <= num && i * esize <= |src|
        invariant w < maxcnt && widx == w * esize
        invariant fits ==> w == Wrap(maxcnt, r, count + i)
        invariant fits ==> Queue(data[..], esize, maxcnt, r, count + i) == queue + Elems(src, esize, i)
      {
        ghost var before := data[..];
        MulStep(esize, w, maxcnt);
        ElemsStep(src, esize, i, num);
        Store(w, src, i);
        if fits {
          QueueAppend(before, data[..], esize, maxcnt, r, count + i, Elem(src, esize, i));
        }
        w := Next(maxcnt, w);
        i := i + 1;
      }
    }

    /** rbuf_write of `n` elements. Without `override` as many as fit are appended and counted. With it all are
        written, and when they do not fit the count passes the capacity. */
    method Write(src: seq<byte>, n: nat) returns (num: nat)
      requires Valid() && n * esize <= |src|
      modifies data, this`widx, this`count
      ensures var free := maxcnt - old(count);
              && num == (if n > free && !override then free else n)
              && count == old(count) + num
              && (Valid() <==> !(override && n > free))
              && num * esize <= |src|
              && (Valid() ==> Contents() == old(Contents()) + Elems(src, esize, num))
    {
      num := n;
      if n > maxcnt - count && !override {
        num := maxcnt - count;
        MulStep(esize, num, n);
      }
      StoreAll(src, num);
      count := count + num;
    }

    /** One round of the loop of rbuf_read: copy an element, advance the read index. */
    method Fetch() returns (x: seq<byte>)
      requires esize > 0 && r < maxcnt && data.Length == maxcnt * esize && ridx == r * esize
      modifies this`ridx, this`r
      ensures r == Next(maxcnt, old(r)) && ridx == r * esize
      ensures old(r) * esize + esize <= data.Length && x == Elem(data[..], esize, old(r))
    {
      MulStep(esize, r, maxcnt);
      x := data[ridx..ridx + esize];
      Advance(esize, maxcnt, r);
      ridx := ridx + esize;
      ridx := ridx % (maxcnt * esize);
      r := Next(maxcnt, r);
    }

    /** One element goes behind those already read; `queue` is what the buffer held. */
    method FetchNext(dst0: seq<byte>, ghost i: nat, ghost queue: seq<seq<byte>>) returns (dst: seq<byte>)
      requires esize > 0 && r < maxcnt && data.Length == maxcnt * esize && ridx == r * esize
      requires i < |queue| <= maxcnt && Queue(data[..], esize, maxcnt, r, |queue| - i) == queue[i..]
      requires |dst0| == i * esize && Elems(dst0, esize, i) == queue[..i]
      modifies this`ridx, this`r
      ensures r < maxcnt && ridx == r * esize
      ensures Wrap(maxcnt, r, |queue| - i - 1) == Wrap(maxcnt, old(r), |queue| - i)
      ensures Queue(data[..], esize, maxcnt, r, |queue| - i - 1) == queue[i + 1..]
      ensures |dst| == (i + 1) * esize && Elems(dst, esize, i + 1) == queue[..i + 1]
    {
      QueueTail(data[..], esize, maxcnt, r, |queue| - i);
      NextWraps(maxcnt, r, |queue| - i);
      var x := Fetch();
      ElemsExtend(dst0, x, esize, i);
      assert queue[i..] == [queue[i]] + queue[i + 1..] && queue[..i + 1] == queue[..i] + [queue[i]];
      dst := dst0 + x;
    }

    /** rbuf_read of up to `n` elements */
    method Read(n: nat) returns (dst: seq<byte>, num: nat)
      requires Valid()
      modifies this`count, this`ridx, this`r
      ensures Valid()
      ensures num == (if n > old(count) then old(count) else n)
      ensures count == old(count) - num
      ensures |dst| == num * esize && Elems(dst, esize, num) == old(Contents())[..num]
      ensures Contents() == old(Contents())[num..]
    {
      num := if n > count then count else n;
      dst := [];
      ghost var queue, last := Contents(), Wrap(maxcnt, r, count);
      var i := 0;
      while i < num
        invariant 0 <= i <= num <= count && count == old(count)
        invariant r < maxcnt && ridx == r * esize && Wrap(maxcnt, r, count - i) == last
        invariant |dst| == i * esize && Elems(dst, esize, i) == queue[..i]
        invariant Queue(data[..], esize, maxcnt, r, count - i) == queue[i..]
      {
        dst := FetchNext(dst, i, queue);
        i := i + 1;
      }
      count := count - num;
    }
  }

  lemma ElemsExtend(d: seq<byte>, x: seq<byte>, size: nat, n: nat)
    requires |d| == n * size && |x| == size
    ensures |d + x| == (n + 1) * size
    ensures Elems(d + x, size, n + 1) == Elems(d, size, n) + [x]
  {
    MulStep(size, n, n + 1);
    forall i | 0 <= i < n + 1
      ensures Elems(d + x, size, n + 1)[i] == (Elems(d, size, n) + [x])[i]
    {
      if i < n { MulStep(size, i, n); }
    }
  }

  /** 65537 elements of 65536 bytes get a buffer for one. */
  method RoomWraps() returns (ring: Ring?)
    ensures ring != null && ring.data.Length == 65536 && ring.maxcnt == 65537 && ring.esize == 65536 && !ring.Valid()
  {
    ring := Ring.Create(65536, 65537, false);
  }

  /** With `override`, two elements written to a buffer of one are counted twice. */
  method OverrideBreaks(x: byte, y: byte) returns (ring: Ring?)
    ensures ring != null && ring.maxcnt == 1 && ring.count == 2 && !ring.Valid()
  {
    ring := Ring.Create(1, 1, true);
    var n := ring.Write([x, y], 2);
  }
}
