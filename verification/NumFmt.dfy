/** Numbers to text: numfmt of lib/libutil/src/format.c. */
module NumFmt {
  import opened StrTo

  const LLONG_LIMIT := 0x8000_0000_0000_0000
  const NUL: char := 0 as char

  /** The digit table; it has no N, so that a digit of 35 falls on the terminating NUL. */
  const DIGITS: string := "0123456789ABCDEFGHIJKLMOPQRSTUVWXYZ"

  /** The table entry for a digit: one letter too far from 23 on, and NUL for 35. */
  function CharOf(d: nat): char {
    if d < 10 then '0' + d as char
    else if d < 23 then 'A' + (d - 10) as char
    else if d < 35 then 'O' + (d - 23) as char
    else NUL
  }

  lemma TableIs()
    ensures |DIGITS| == 35 && forall d | 0 <= d < 35 :: DIGITS[d] == CharOf(d)
  {
  }

  // ---------- what is printed ----------

  /** The digits of a number, most significant first. */
  function DigitsOf(num: nat, base: nat): (r: seq<nat>)
    requires base >= 2
    ensures |r| > 0
    decreases num
  {
    if num < base then [num] else Halves(num, base); DigitsOf(num / base, base) + [num % base]
  }

  lemma {:induction false} DigitsBelow(num: nat, base: nat, k: nat)
    requires base >= 2 && k < |DigitsOf(num, base)|
    ensures DigitsOf(num, base)[k] < base
    decreases num
  {
    if num >= base {
      Halves(num, base);
      if k < |DigitsOf(num / base, base)| { DigitsBelow(num / base, base, k); }
    }
  }

  function Chars(ds: seq<nat>): (r: string)
    ensures |r| == |ds| && forall k | 0 <= k < |ds| :: r[k] == CharOf(ds[k])
  {
    seq(|ds|, k requires 0 <= k < |ds| => CharOf(ds[k]))
  }

  /** A string up to its first NUL. */
  function Cut(s: string): (r: string)
    ensures |r| <= |s| && r == s[..|r|] && forall k | 0 <= k < |r| :: r[k] != NUL
    ensures |r| < |s| ==> s[|r|] == NUL
  {
    if s == [] || s[0] == NUL then [] else [s[0]] + Cut(s[1..])
  }

  function Padding(n: int, pc: char): (r: string)
    ensures |r| == (if n > 0 then n else 0) && forall k | 0 <= k < |r| :: r[k] == pc
  {
    if n <= 0 then [] else seq(n, k => pc)
  }

  function Text(num: nat, base: nat, pad: int, pc: char): string
    requires base >= 2
  {
    var ds := DigitsOf(num, base);
    Padding(pad - |ds|, pc) + Cut(Chars(ds))
  }

  // ---------- numfmt ----------

  function Pow(b: nat, k: nat): (r: nat) {
    if k == 0 then 1 else b * Pow(b, k - 1)
  }

  /** A number below 2^k has at most k digits in any base. */
  lemma {:induction false} FewDigits(num: nat, base: nat, k: nat)
    requires base >= 2 && num < Pow(2, k) && k > 0
    ensures |DigitsOf(num, base)| <= k
    decreases num
  {
    if num >= base {
      Halves(num, base);
      assert Pow(2, 1) == 2 * Pow(2, 0) == 2;
      FewDigits(num / base, base, k - 1);
    }
  }

  lemma Halves(num: nat, base: nat)
    requires num >= base >= 2
    ensures 2 * (num / base) <= num && 0 < num / base < num && 0 <= num % base < base
    ensures num == num / base * base + num % base
  {
    var q := num / base;
    Limit(num, base);
    assert q * base >= q * 2;
  }

  lemma Pow63()
    ensures Pow(2, 63) == LLONG_LIMIT
  {
    Product(7, 0x80, 7, 0x80);
    Product(14, 0x4000, 7, 0x80);
    Product(21, 0x20_0000, 21, 0x20_0000);
    Product(42, 0x400_0000_0000, 21, 0x20_0000);
  }

  lemma Product(i: nat, m: nat, j: nat, n: nat)
    ensures Pow(2, 7) == 0x80
    ensures Pow(2, i) == m && Pow(2, j) == n ==> Pow(2, i + j) == m * n
  {
    PowAdd(2, i, j);
  }

  lemma {:induction false} PowAdd(b: nat, i: nat, j: nat)
    ensures Pow(b, i + j) == Pow(b, i) * Pow(b, j)
    decreases i
  {
    if i > 0 {
      PowAdd(b, i - 1, j);
      assert b * (Pow(b, i - 1) * Pow(b, j)) == (b * Pow(b, i - 1)) * Pow(b, j);
    }
  }

  /** Quotient and remainder as C computes them, rounding towards zero. */
  function CDiv(num: int, base: nat): int
    requires base > 0
  {
    if num >= 0 then num / base else -((-num) / base)
  }

  function CRem(num: int, base: nat): int
    requires base > 0
  {
    if num >= 0 then num % base else -((-num) % base)
  }

  /** What is printed for a number, if anything: the loop ends after one round for a negative one. */
  function Shown(num: int): nat { if num < 0 then 0 else num }

  /** A digit goes before those already there. */
  method PutDigit(tmp: array<char>, at: nat, c: char)
    requires tmp.Length == 65 && at < 64
    modifies tmp
    ensures tmp[64] == old(tmp[64]) && tmp[at..64] == [c] + old(tmp[at + 1..64])
  {
    tmp[at] := c;
    assert tmp[at + 1..64] == old(tmp[at + 1..64]);
  }

  /** One round splits off the last digit. */
  lemma DigitStep(num: int, base: nat, tail: seq<nat>)
    requires base >= 2 && CRem(num, base) >= 0
    ensures CDiv(num, base) > 0 ==> CDiv(num, base) < num
    ensures DigitsOf(Shown(num), base) + tail ==
            (if CDiv(num, base) > 0 then DigitsOf(CDiv(num, base), base) else []) + ([CRem(num, base)] + tail)
  {
    if num >= base {
      Halves(num, base);
      assert DigitsOf(num / base, base) + [num % base] + tail == DigitsOf(num / base, base) + ([num % base] + tail);
    } else if num >= 0 {
      Small(num, base);
      assert [] + ([num] + tail) == [num] + tail;
    } else {
      NegativeQuotient(num, base);
      assert [] + ([0] + tail) == [0] + tail;
    }
  }

  lemma NegativeQuotient(num: int, base: nat)
    requires num < 0 && base > 0
    ensures CDiv(num, base) <= 0 && 0 - base < CRem(num, base) <= 0
  {
  }

  /** The first loop of numfmt: the digits go backwards into a buffer of 65 characters, ending before the
      NUL at 64; `end` is the position before the first digit. A negative remainder is looked up before the
      beginning of the digit table. */
  method PutDigits(num0: int, base: nat, tmp: array<char>) returns (stray: bool, end: nat)
    requires num0 < LLONG_LIMIT && base >= 2 && tmp.Length == 65 && tmp[64] == NUL
    modifies tmp
    ensures stray <==> CRem(num0, base) < 0
    ensures !stray ==> end == 63 - |DigitsOf(Shown(num0), base)| && tmp[64] == NUL
    ensures !stray ==> tmp[end + 1..64] == Chars(DigitsOf(Shown(num0), base))
  {
    var num := num0;
    stray, end := false, 63;
    ghost var ds, tail: seq<nat> := DigitsOf(Shown(num0), base), [];
    assert |ds| <= 63 by { Pow63(); FewDigits(Shown(num0), base, 63); }
    var more := true;
    while more
      invariant end == 63 - |tail| && tmp[64] == NUL
      invariant num == num0 || (num >= 0 && CRem(num0, base) >= 0) || !more
      invariant more || CRem(num0, base) >= 0
      invariant ds == (if more then DigitsOf(Shown(num), base) else []) + tail
      invariant tmp[end + 1..64] == Chars(tail)
      decreases more, num
    {
      var rem := CRem(num, base);
      if rem < 0 { return true, end; }
      DigitStep(num, base, tail);
      PutDigit(tmp, end, CharOf(rem));
      ConsChars(rem, tail);
      tail := [rem] + tail;
      num := CDiv(num, base);
      end, more := end - 1, num > 0;
    }
    assert [] + tail == tail;
  }

  lemma ConsChars(d: nat, tail: seq<nat>)
    ensures Chars([d] + tail) == [CharOf(d)] + Chars(tail)
  {
  }

  method Pad(pad: int, pc: char) returns (text: string)
    ensures text == Padding(pad, pc)
  {
    text := [];
    var left := pad;
    while left > 0
      invariant pad >= 0 ==> |text| == pad - left && left >= 0
      invariant pad < 0 ==> text == [] && left == pad
      invariant forall k | 0 <= k < |text| :: text[k] == pc
    {
      text := text + [pc];
      left := left - 1;
    }
  }

  /** The last loop: copy from the buffer up to the first NUL. */
  method CopyOut(tmp: array<char>, first: nat, head: string) returns (text: string)
    requires tmp.Length == 65 && first <= 64 && tmp[64] == NUL
    ensures text == head + Cut(tmp[first..64])
  {
    text := head;
    ghost var chars := tmp[first..64];
    var end := first;
    while tmp[end] != NUL
      invariant first <= end <= 64 && text == head + chars[..end - first]
      invariant forall k | first <= k < end :: tmp[k] != NUL
      decreases 64 - end
    {
      assert chars[..end + 1 - first] == chars[..end - first] + [tmp[end]];
      text := text + [tmp[end]];
      end := end + 1;
    }
    CutAt(chars, end - first);
  }

  /** What numfmt writes; `Stray` when it reads before the digit table. */
  datatype Formatted = Printed(text: string) | Nothing | Stray

  /** numfmt: the padding, then the digits from the buffer up to the first NUL. Nothing is written for a
      bad base. A negative number comes out as 0 if the base divides it, and else reads before the table. */
  method Numfmt(num: int, base: int, pad: int, pc: char) returns (out: Formatted)
    requires num < LLONG_LIMIT
    ensures out == if !(2 <= base <= 36) then Nothing
                   else if num < 0 && (-num) % base != 0 then Stray
                   else Printed(Text(Shown(num), base, pad, pc))
  {
    if base < 2 || base > 36 { return Nothing; }
    var tmp := new char[65];
    tmp[64] := NUL;
    NegativeRem(num, base);
    var stray, end := PutDigits(num, base, tmp);
    if stray { return Stray; }
    var text := Pad(pad - (63 - end), pc);
    text := CopyOut(tmp, end + 1, text);
    out := Printed(text);
  }

  /** The last digit of -1 in base 10. */
  lemma MinusOne()
    ensures CRem(-1, 10) == -1
  {
  }

  lemma NegativeRem(num: int, base: nat)
    requires base > 0
    ensures CRem(num, base) < 0 <==> num < 0 && (-num) % base != 0
  {
  }

  lemma Small(num: nat, base: nat)
    requires num < base
    ensures num / base == 0 && num % base == num
  {
  }

  lemma CutAt(s: string, k: nat)
    requires k <= |s| && (forall i | 0 <= i < k :: s[i] != NUL) && (k < |s| ==> s[k] == NUL)
    ensures Cut(s) == s[..k]
  {
    var r := Cut(s);
    assert forall i | 0 <= i < |r| :: r[i] == s[i] != NUL;
  }
}
