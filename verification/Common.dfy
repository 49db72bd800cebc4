/** Shared vocabulary: optional values, bytes and 32-bit little-endian words. */
module Common {

  datatype Option<+T> = None | Some(value: T)

  type byte = x: int | 0 <= x < 256

  const WORD: int := 0x1_0000_0000

  const PAGE_SIZE := 4096
  const PAGES := 0x10_0000   // pages of a 32-bit address space

  type Page = p: int | 0 <= p < PAGES

  /** How far page `q` lies behind page `v`, around the end of the address space. */
  function Ahead(v: Page, q: Page): nat {
    if q >= v then q - v else q - v + PAGES
  }

  /** Page `p` and `d` further, around the end of the address space. */
  function Plus(p: Page, d: nat): Page {
    var r := d % PAGES;
    if p + r < PAGES then p + r else p + r - PAGES
  }

  ghost predicate Distinct<T>(s: seq<T>) {
    forall j, k | 0 <= j < k < |s| :: s[j] != s[k]
  }

  /** Byte `k` of a number, counted from the lowest. */
  function ByteOf(n: nat, k: nat): byte {
    if k == 0 then n % 0x100 else ByteOf(n / 0x100, k - 1)
  }

  /** The four bytes of a C `int` or `uint32_t` as an i386 stores it; higher bits are cut off. */
  function LE32(n: nat): (r: seq<byte>)
    ensures |r| == 4
  {
    seq(4, k requires 0 <= k < 4 => ByteOf(n, k))
  }

  /** The number a little-endian byte string stands for. */
  function Value(s: seq<byte>): nat {
    if s == [] then 0 else s[0] as int + 0x100 * Value(s[1..])
  }

  function Get32(s: seq<byte>, off: nat): nat
    requires off + 4 <= |s|
  {
    Value(s[off..off + 4])
  }

  lemma Get32OfLE32(s: seq<byte>, off: nat, n: nat)
    requires n < WORD && off + 4 <= |s| && s[off..off + 4] == LE32(n)
    ensures Get32(s, off) == n
  {
    var w := LE32(n);
    BytesOf(n, w);
    assert w == [w[0]] + ([w[1]] + ([w[2]] + ([w[3]] + [])));
    ValueCons(w[3], []);
    ValueCons(w[2], [w[3]] + []);
    ValueCons(w[1], [w[2]] + ([w[3]] + []));
    ValueCons(w[0], [w[1]] + ([w[2]] + ([w[3]] + [])));
  }

  lemma BytesOf(n: nat, w: seq<byte>)
    requires n < WORD && w == LE32(n)
    ensures n == w[0] as int + 0x100 * (w[1] as int + 0x100 * (w[2] as int + 0x100 * w[3] as int))
  {
    var n1 := n / 0x100;
    var n2 := n1 / 0x100;
    var n3 := n2 / 0x100;
    NextByte(n, 1);
    NextByte(n, 2);
    NextByte(n, 3);
    NextByte(n1, 1);
    NextByte(n1, 2);
    NextByte(n2, 1);
    assert n3 < 0x100;
  }

  lemma NextByte(n: nat, k: nat)
    requires k > 0
    ensures ByteOf(n, k) == ByteOf(n / 0x100, k - 1)
  {
  }

  lemma ValueCons(b: byte, s: seq<byte>)
    ensures Value([b] + s) == b as int + 0x100 * Value(s)
  {
    assert ([b] + s)[1..] == s;
  }

  /** A region that holds `x + y` holds `x` and then `y`. */
  lemma SplitSlice<T>(s: seq<T>, off: nat, x: seq<T>, y: seq<T>)
    requires off + |x| + |y| <= |s| && s[off..off + |x| + |y|] == x + y
    ensures s[off..off + |x|] == x
    ensures s[off + |x|..off + |x| + |y|] == y
  {
    var w := s[off..off + |x| + |y|];
    assert w[..|x|] == x && w[|x|..] == y;
  }
}
