/** Ranges of a medium that are read and written piece by piece, and the arithmetic of blocks. */
module Ranges {

  // ---------- ranges ----------

  /** `b` with `x` written at `at`, as far as it reaches. */
  function Overlay<A>(b: seq<A>, at: nat, x: seq<A>): (r: seq<A>)
    ensures |r| == |b|
    ensures forall k | 0 <= k < |b| :: r[k] == if at <= k < at + |x| then x[k - at] else b[k]
  {
    seq(|b|, k requires 0 <= k < |b| => if at <= k < at + |x| then x[k - at] else b[k])
  }

  /** `x` is what `b` holds from `at` on, as far as it reaches. */
  ghost predicate Agrees<A>(x: seq<A>, at: nat, b: seq<A>) {
    forall k | 0 <= k < |x| && at + k < |b| :: x[k] == b[at + k]
  }

  /** The two contents agree outside [lo, hi). */
  ghost predicate Outside<A>(b: seq<A>, c: seq<A>, lo: nat, hi: nat) {
    |b| == |c| && forall k | 0 <= k < |b| && !(lo <= k < hi) :: b[k] == c[k]
  }

  /** A write that reaches no further than the medium. */
  lemma OverlayInside<A>(b: seq<A>, at: nat, x: seq<A>)
    requires at + |x| <= |b|
    ensures Overlay(b, at, x) == b[..at] + x + b[at + |x|..]
  {
  }

  lemma OverlayJoin<A>(b: seq<A>, at: nat, x: seq<A>, y: seq<A>)
    ensures Overlay(Overlay(b, at, x), at + |x|, y) == Overlay(b, at, x + y)
  {
  }

  lemma OverlayNone<A>(b: seq<A>, at: nat)
    ensures Overlay(b, at, []) == b
  {
  }

  /** Changing part of a piece and writing the piece back changes just that part. */
  lemma OverlayPiece<A>(b: seq<A>, lo: nat, piece: seq<A>, at: nat, x: seq<A>)
    requires Agrees(piece, lo, b) && at + |x| <= |piece|
    ensures Overlay(b, lo, Overlay(piece, at, x)) == Overlay(b, lo + at, x)
  {
    var c := Overlay(piece, at, x);
    forall k | 0 <= k < |b| ensures Overlay(b, lo, c)[k] == Overlay(b, lo + at, x)[k] {
      if lo <= k < lo + |piece| { assert piece[k - lo] == b[lo + (k - lo)]; }
    }
  }

  lemma OverlayOutside<A>(b: seq<A>, at: nat, x: seq<A>)
    ensures Outside(b, Overlay(b, at, x), at, at + |x|)
  {
  }

  lemma OutsideTrans<A>(b: seq<A>, c: seq<A>, d: seq<A>, lo: nat, hi: nat)
    requires Outside(b, c, lo, hi) && Outside(c, d, lo, hi)
    ensures Outside(b, d, lo, hi)
  {
  }

  lemma OutsideWider<A>(b: seq<A>, c: seq<A>, lo: nat, hi: nat, lo': nat, hi': nat)
    requires Outside(b, c, lo, hi) && lo' <= lo && hi <= hi'
    ensures Outside(b, c, lo', hi')
  {
  }

  /** A part of the medium sees the writes that go to it. */
  lemma OverlayPart<A>(b: seq<A>, lo: nat, hi: nat, at: nat, x: seq<A>)
    requires lo <= hi <= |b|
    ensures Overlay(b, lo + at, x)[lo..hi] == Overlay(b[lo..hi], at, x)
  {
  }

  lemma OutsidePart<A>(b: seq<A>, c: seq<A>, lo: nat, hi: nat, from: nat, to: nat)
    requires lo <= hi <= |b| && Outside(b, c, lo + from, lo + to)
    ensures Outside(b[lo..hi], c[lo..hi], from, to)
  {
  }

  /** A part of what agrees, agrees. */
  lemma AgreesPart<A>(x: seq<A>, at: nat, b: seq<A>, lo: nat, hi: nat)
    requires Agrees(x, at, b) && lo <= hi <= |x|
    ensures Agrees(x[lo..hi], at + lo, b)
  {
    forall k | 0 <= k < hi - lo && at + lo + k < |b| ensures x[lo..hi][k] == b[at + lo + k] {
      assert x[lo + k] == b[at + (lo + k)];
    }
  }

  // ---------- blocks ----------

  lemma Distribute(a: nat, b: nat, c: nat)
    ensures (a + b) * c == a * c + b * c
  {
  }

  lemma Monotone(a: nat, b: nat, c: nat)
    requires a <= b
    ensures a * c <= b * c
  {
  }

  lemma DivBounds(n: nat, bs: nat)
    requires bs > 0
    ensures n == n / bs * bs + n % bs && 0 <= n % bs < bs && 0 <= n / bs <= n
  {
    var q, r := n / bs, n % bs;
    assert n == q * bs + r;
    ProductSign(q, bs);
  }

  lemma ProductSign(q: int, bs: nat)
    requires bs > 0
    ensures if q < 0 then q * bs + bs <= 0 else q * bs >= q
  {
  }

  lemma DivMonotone(m: nat, n: nat, bs: nat)
    requires bs > 0 && m <= n
    ensures m / bs <= n / bs
  {
    DivBounds(m, bs);
    DivBounds(n, bs);
    if n / bs < m / bs { Monotone(n / bs + 1, m / bs, bs); Distribute(n / bs, 1, bs); }
  }

  lemma SameRemainder(q: nat, p: nat, r: nat, s: nat, bs: nat)
    requires q * bs + r == p * bs + s && r < bs && s < bs
    ensures q == p && r == s
  {
    if q < p { Distribute(q, 1, bs); Monotone(q + 1, p, bs); }
    if p < q { Distribute(p, 1, bs); Monotone(p + 1, q, bs); }
  }

  lemma ModShift(q: nat, n: nat, bs: nat)
    requires bs > 0
    ensures (q * bs + n) % bs == n % bs
  {
    var m := q * bs + n;
    DivBounds(m, bs);
    DivBounds(n, bs);
    Distribute(q, n / bs, bs);
    SameRemainder(m / bs, q + n / bs, m % bs, n % bs, bs);
  }

  /** On a device of whole blocks, a byte position inside it lies in a block inside it. */
  lemma BlockInside(total: nat, bs: nat, at: nat)
    requires bs > 0 && total % bs == 0
    ensures at < total <==> (at / bs + 1) * bs <= total
  {
    var q, n := at / bs, total / bs;
    DivBounds(at, bs);
    DivBounds(total, bs);
    Distribute(q, 1, bs);
    if q + 1 <= n { Monotone(q + 1, n, bs); }
    if n <= q { Monotone(n, q, bs); }
  }

  /** The start of the block that byte `n` lies in. */
  function BlockStart(n: nat, bs: nat): (r: nat)
    requires bs > 0
  {
    DivBounds(n, bs);
    n - n % bs
  }

  /** The end of the last block that [0, n) touches. */
  function BlockEnd(n: nat, bs: nat): (r: nat)
    requires bs > 0
    ensures n <= r < n + bs
  {
    DivBounds(n, bs);
    if n % bs == 0 then n else n - n % bs + bs
  }

  /** On a device of whole blocks, part of a block is inside exactly if the block is. */
  lemma PartInside(total: nat, bs: nat, block: nat, pos: nat, size: nat)
    requires bs > 0 && total % bs == 0 && 0 < size <= bs && pos == block * bs
    ensures pos + size <= total <==> pos + bs <= total
  {
    var at := pos + size - 1;
    DivBounds(at, bs);
    BlockInside(total, bs, at);
    SameRemainder(at / bs, block, at % bs, size - 1, bs);
    Distribute(block, 1, bs);
  }

  /** Where a range ends, seen from its start inside a block and from the next block boundary. */
  lemma EndsAfter(bs: nat, unaligned: nat, size: nat, first: nat)
    requires 0 < unaligned < bs && first == if bs - unaligned > size then size else bs - unaligned
    ensures BlockEnd(unaligned + size, bs) == if first == size then bs else bs + BlockEnd(size - first, bs)
  {
    if first < size { ModShift(1, size - first, bs); }
  }
}
