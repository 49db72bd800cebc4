/** Text to numbers: lib/libc/functions/_PDCLIB/strtox_prelim.c and strtox_main.c, strtol.c, strtoul.c.
    A C string is a `string` without NUL; its end stands for the terminating NUL. */
module StrTo {
  import opened Common

  const LONG_MAX := 0x7fff_ffff
  const LONG_MIN := -0x8000_0000
  const ULONG_MAX := 0xffff_ffff

  // ---------- digits ----------

  /** The value of a digit in any base up to 36, in either case; 36 for any other character. */
  function DigitOf(c: char): (d: nat)
    ensures d <= 36
  {
    if '0' <= c <= '9' then (c - '0') as int
    else if 'a' <= c <= 'z' then 10 + (c - 'a') as int
    else if 'A' <= c <= 'Z' then 10 + (c - 'A') as int
    else 36
  }

  /** The table that the code looks digits up in, after turning upper case to lower case. */
  const DIGIT_TABLE: string := "0123456789abcdefghijklmnopqrstuvwxyz"

  function ToLower(c: char): char { if 'A' <= c <= 'Z' then c - 'A' + 'a' else c }

  lemma TableEntry(d: nat)
    requires d < 36
    ensures |DIGIT_TABLE| == 36 && DIGIT_TABLE[d] == if d < 10 then '0' + d as char else 'a' + (d - 10) as char
  {
  }

  /** The digit is the place of the character in that table, if it is there. */
  lemma DigitIsPlace(c: char, d: nat)
    requires d < 36
    ensures DIGIT_TABLE[d] == ToLower(c) <==> DigitOf(c) == d
  {
    TableEntry(d);
  }

  predicate IsDigit(s: string, i: nat, base: nat) {
    i < |s| && DigitOf(s[i]) < base
  }

  /** Where the digits from `i` on end. */
  function RunEnd(s: string, i: nat, base: nat): (e: nat)
    requires i <= |s|
    ensures i <= e <= |s| && !IsDigit(s, e, base)
    ensures forall k | i <= k < e :: IsDigit(s, k, base)
    decreases |s| - i
  {
    if IsDigit(s, i, base) then RunEnd(s, i + 1, base) else i
  }

  lemma {:induction false} RunEndSame(s: string, i: nat, k: nat, base: nat)
    requires i <= |s| && i <= k <= RunEnd(s, i, base)
    ensures RunEnd(s, k, base) == RunEnd(s, i, base)
    decreases k - i
  {
    if i < k { RunEndSame(s, i + 1, k, base); }
  }

  lemma {:induction false} RunEndIs(s: string, i: nat, e: nat, base: nat)
    requires i <= e <= |s| && (forall k | i <= k < e :: IsDigit(s, k, base)) && !IsDigit(s, e, base)
    ensures RunEnd(s, i, base) == e
    decreases e - i
  {
    if i < e { RunEndIs(s, i + 1, e, base); }
  }

  /** The number that digits stand for, most significant first. */
  function NumVal(s: string, base: nat): (v: nat) {
    if s == [] then 0 else NumVal(s[..|s| - 1], base) * base + DigitOf(s[|s| - 1])
  }

  lemma {:induction false} NumValNext(s: string, i: nat, k: nat, base: nat)
    requires i <= k < |s|
    ensures NumVal(s[i..k + 1], base) == NumVal(s[i..k], base) * base + DigitOf(s[k])
  {
    assert s[i..k + 1][..k - i] == s[i..k];
  }

  /** More digits never make a number smaller. */
  lemma {:induction false} NumValGrows(s: string, i: nat, k: nat, e: nat, base: nat)
    requires i <= k <= e <= |s| && base >= 1
    ensures NumVal(s[i..k], base) <= NumVal(s[i..e], base)
    decreases e - k
  {
    if k < e {
      NumValGrows(s, i, k, e - 1, base);
      NumValNext(s, i, e - 1, base);
      Scales(NumVal(s[i..e - 1], base), base);
    }
  }

  lemma Scales(v: nat, base: nat)
    requires base >= 1
    ensures v <= v * base
  {
  }

  /** The test on the value so far and the next digit is the test whether the new value is within the
      limit. */
  lemma StepFits(rc: nat, digit: nat, base: nat, limval: nat, limdigit: nat)
    requires digit < base && limdigit < base
    ensures rc < limval || (rc == limval && digit <= limdigit) <==> rc * base + digit <= limval * base + limdigit
  {
    if rc < limval { assert (rc + 1) * base <= limval * base; }
    if rc > limval { assert (limval + 1) * base <= rc * base; }
  }

  // ---------- _PDCLIB_strtox_main ----------

  method SkipDigits(s: string, start: nat, base: nat) returns (i: nat)
    requires start <= |s|
    ensures i == RunEnd(s, start, base)
  {
    i := start;
    while i < |s| && DigitOf(s[i]) < base
      invariant start <= i <= |s| && RunEnd(s, i, base) == RunEnd(s, start, base)
    {
      i := i + 1;
    }
  }

  /** The digits from `start` on, as far as they go: their value, or `error` with the sign reset when it
      exceeds the limit; no position when there are none. */
  method StrtoxMain(s: string, start: nat, base: nat, error: nat, limval: nat, limdigit: nat, sign0: char,
                    ghost limit: nat)
    returns (rc: nat, p: Option<nat>, sign: char)
    requires start <= |s| && 2 <= base <= 36 && limdigit < base && limit == limval * base + limdigit
    ensures var e := RunEnd(s, start, base);
            var v := NumVal(s[start..e], base);
            && p == (if e == start then None else Some(e))
            && rc == (if v <= limit then v else error)
            && sign == (if v <= limit then sign0 else '+')
  {
    rc, sign := 0, sign0;
    var i := start;
    ghost var e := RunEnd(s, start, base);
    assert s[start..start] == [];
    while i < |s| && DigitOf(s[i]) < base
      invariant start <= i <= e && RunEnd(s, i, base) == e
      invariant rc == NumVal(s[start..i], base) <= limit
    {
      var digit := DigitOf(s[i]);
      StepFits(rc, digit, base, limval, limdigit);
      NumValNext(s, start, i, base);
      RunEndSame(s, i, i + 1, base);
      if rc < limval || (rc == limval && digit <= limdigit) {
        rc := rc * base + digit;
        i := i + 1;
      } else {
        NumValGrows(s, start, i + 1, e, base);
        i := SkipDigits(s, i, base);
        return error, Some(i), '+';
      }
    }
    p := if i == start then None else Some(i);
  }

  // ---------- _PDCLIB_strtox_prelim ----------

  predicate IsSpace(c: char) { c == ' ' || 9 <= c as int <= 13 }

  function Skip(s: string, i: nat): (r: nat)
    requires i <= |s|
    ensures i <= r <= |s| && (r < |s| ==> !IsSpace(s[r]))
    ensures forall k | i <= k < r :: IsSpace(s[k])
    decreases |s| - i
  {
    if i < |s| && IsSpace(s[i]) then Skip(s, i + 1) else i
  }

  predicate At(s: string, i: nat, c: char) { i < |s| && s[i] == c }

  /** Where the number starts, its sign and its base: white space and a sign are skipped, `0x` selects or
      confirms base 16, and in base 0 a leading 0 selects base 8. */
  function Prefix(s: string, base: int): (r: (nat, char, int))
    ensures r.0 <= |s| && (r.1 == '+' || r.1 == '-')
    ensures base != 0 ==> r.2 == base
    ensures base == 0 ==> r.2 == 8 || r.2 == 10 || r.2 == 16
  {
    var i := Skip(s, 0);
    var sign := if At(s, i, '-') then '-' else '+';
    var p := if At(s, i, '+') || At(s, i, '-') then i + 1 else i;
    if At(s, p, '0') then
      if (base == 0 || base == 16) && (At(s, p + 1, 'x') || At(s, p + 1, 'X')) then (p + 2, sign, 16)
      else if base == 0 then (p + 1, sign, 8)
      else (p, sign, base)
    else (p, sign, if base == 0 then 10 else base)
  }

  method StrtoxPrelim(s: string, base0: int) returns (p: nat, sign: char, base: int)
    ensures (p, sign, base) == Prefix(s, base0)
  {
    p, sign, base := 0, '+', base0;
    while p < |s| && IsSpace(s[p])
      invariant p <= |s| && Skip(s, p) == Skip(s, 0)
    {
      p := p + 1;
    }
    if p < |s| && (s[p] == '+' || s[p] == '-') {
      sign := s[p];
      p := p + 1;
    }
    if p < |s| && s[p] == '0' {
      p := p + 1;
      if (base == 0 || base == 16) && p < |s| && (s[p] == 'x' || s[p] == 'X') {
        base := 16;
        p := p + 1;
      } else if base == 0 {
        base := 8;
      } else {
        p := p - 1;
      }
    } else if base == 0 {
      base := 10;
    }
  }

  // ---------- strtol and strtoul ----------

  /** The digits of a number in `s`, and where they end; nothing if there are none. */
  function Digits(s: string, base: int): (r: (string, nat))
    requires 2 <= Prefix(s, base).2 <= 36
  {
    var p := Prefix(s, base);
    var e := RunEnd(s, p.0, p.2);
    (s[p.0..e], if e == p.0 then 0 else e)
  }

  function Clamp(x: int, lo: int, hi: int): int { if x < lo then lo else if x > hi then hi else x }

  /** A 32-bit long from the low bits of an unsigned value, and its negation. */
  function ToLong(x: nat): (r: int)
    ensures LONG_MIN <= r <= LONG_MAX
  {
    var y := x % 0x1_0000_0000;
    if y > LONG_MAX then y - 0x1_0000_0000 else y
  }

  function Negate(x: int): (r: int) { if x == LONG_MIN then LONG_MIN else -x }

  /** The part of strtol after the prefix: the digits from `p` on, with the limits for the sign. */
  method SignedDigits(s: string, p: nat, sign0: char, b: nat) returns (r: int, q: Option<nat>)
    requires p <= |s| && 2 <= b <= 36
    ensures var e := RunEnd(s, p, b);
            var v: int := NumVal(s[p..e], b);
            && q == (if e == p then None else Some(e))
            && r == Clamp(if sign0 == '+' then v else -v, LONG_MIN, LONG_MAX)
  {
    var rc, sign;
    if sign0 == '+' {
      Limit(LONG_MAX, b);
      rc, q, sign := StrtoxMain(s, p, b, LONG_MAX, LONG_MAX / b, LONG_MAX % b, sign0, LONG_MAX);
    } else {
      Limit(-LONG_MIN, b);
      rc, q, sign := StrtoxMain(s, p, b, 0x1_0000_0000_0000_0000 + LONG_MIN, -LONG_MIN / b, -LONG_MIN % b, sign0,
                                -LONG_MIN);
    }
    r := if sign == '+' then ToLong(rc) else Negate(ToLong(rc));
  }

  /** strtol: the value of the text, brought into the range of long; `end` is the offset stored through
      endptr: past the last digit, or 0 when there was no digit. A bad base stores nothing. */
  method Strtol(s: string, base: int) returns (r: int, end: Option<nat>)
    ensures var (p, sign, b) := Prefix(s, base);
            if 2 <= b <= 36 then
              var (digits, e) := Digits(s, base);
              var v: int := NumVal(digits, b);
              end == Some(e) && r == Clamp(if sign == '-' then -v else v, LONG_MIN, LONG_MAX)
            else r == 0 && end == None
  {
    var p, sign, b := StrtoxPrelim(s, base);
    if b < 2 || b > 36 { return 0, None; }
    var q;
    r, q := SignedDigits(s, p, sign, b);
    end := Some(if q.Some? then q.value else 0);
  }

  lemma Limit(n: nat, base: nat)
    requires base > 0
    ensures n / base * base + n % base == n && 0 <= n / base && 0 <= n % base < base
  {
  }

  /** strtoul: the value of the text up to ULONG_MAX; a value within range is negated modulo 2^32 for a
      minus sign. */
  method Strtoul(s: string, base: int) returns (r: nat, end: Option<nat>)
    ensures var (p, sign, b) := Prefix(s, base);
            if 2 <= b <= 36 then
              var (digits, e) := Digits(s, base);
              var v := NumVal(digits, b);
              && end == Some(e)
              && r == (if v > ULONG_MAX then ULONG_MAX else if sign == '-' && v > 0 then ULONG_MAX + 1 - v else v)
            else r == 0 && end == None
  {
    var p, sign, b := StrtoxPrelim(s, base);
    if b < 2 || b > 36 { return 0, None; }
    Limit(ULONG_MAX, b);
    var rc, q;
    rc, q, sign := StrtoxMain(s, p, b, ULONG_MAX, ULONG_MAX / b, ULONG_MAX % b, sign, ULONG_MAX);
    end := Some(if q.Some? then q.value else 0);
    r := if sign == '+' || rc == 0 then rc else ULONG_MAX + 1 - rc;
  }

  /** Where the text goes on behind white space and a sign. */
  function Body(s: string): nat {
    var i := Skip(s, 0);
    if At(s, i, '+') || At(s, i, '-') then i + 1 else i
  }

  /** In base 0 and 16 a text that starts with the digit 0 may count as no number at all, with end offset
      0: exactly if an x without a hexadecimal digit follows the 0 or, in base 0, neither an x nor an
      octal digit. */
  lemma ZeroLostIff(s: string, base: int)
    requires (base == 0 || base == 16) && At(s, Body(s), '0')
    ensures var q := Body(s);
            Digits(s, base).1 == 0 <==>
              if At(s, q + 1, 'x') || At(s, q + 1, 'X') then !IsDigit(s, q + 2, 16)
              else base == 0 && !IsDigit(s, q + 1, 8)
  {
    var p := Prefix(s, base);
    assert RunEnd(s, p.0, p.2) == p.0 <==> !IsDigit(s, p.0, p.2);
    assert DigitOf('0') == 0;
  }

  /** So it goes for 0 in base 0 and for 0x in base 16. */
  lemma ZeroLost()
    ensures Digits("0", 0) == ("", 0) && Digits("0x", 16) == ("", 0)
  {
    assert Skip("0", 0) == 0 && Skip("0x", 0) == 0;
    assert Prefix("0", 0) == (1, '+', 8) && Prefix("0x", 16) == (2, '+', 16);
    assert "0"[1..1] == "" && "0x"[2..2] == "";
  }

  // ---------- what a text means ----------

  /** White space as the C standard has it: space, tab, line feed, vertical tab, form feed, carriage return. */
  lemma SpacesAre(c: char)
    ensures IsSpace(c) <==> c in {' ', '\t', '\n', '\U{B}', '\U{C}', '\r'}
  {
  }

  ghost predicate AllSpace(a: string) { forall k | 0 <= k < |a| :: IsSpace(a[k]) }

  predicate IsSign(sgn: string) { sgn == "" || sgn == "+" || sgn == "-" }

  /** What stands in front of a number ends here: no white space, and no sign, may follow where there was no sign. */
  predicate Begins(sgn: string, z: string) {
    sgn == "" && z != "" ==> !IsSpace(z[0]) && z[0] != '+' && z[0] != '-'
  }

  lemma {:induction false} SkipsBlanks(a: string, rest: string, i: nat)
    requires AllSpace(a) && (rest == "" || !IsSpace(rest[0])) && i <= |a|
    ensures Skip(a + rest, i) == |a|
    decreases |a| - i
  {
    if i < |a| {
      assert (a + rest)[i] == a[i];
      SkipsBlanks(a, rest, i + 1);
    } else if rest != "" {
      assert (a + rest)[i] == rest[0];
    }
  }

  /** Behind white space and a sign, a minus sign is a minus sign, and the first characters select the base. */
  lemma PrefixOn(a: string, sgn: string, z: string, base: int)
    requires AllSpace(a) && IsSign(sgn) && Begins(sgn, z)
    ensures var (p, sign, b) := Prefix(a + sgn + z, base);
            var n := |a| + |sgn|;
            && sign == (if sgn == "-" then '-' else '+')
            && if (base == 0 || base == 16) && ("0x" <= z || "0X" <= z) then p == n + 2 && b == 16
               else if base == 0 && "0" <= z then p == n + 1 && b == 8
               else p == n && b == if base == 0 then 10 else base
  {
    var s := a + sgn + z;
    SignFound(a, sgn, z, s);
    StartsAt(s, |a| + |sgn|, z);
  }

  lemma SignFound(a: string, sgn: string, z: string, s: string)
    requires AllSpace(a) && IsSign(sgn) && Begins(sgn, z) && s == a + sgn + z
    ensures Skip(s, 0) == |a| && (At(s, |a|, '-') <==> sgn == "-") && (At(s, |a|, '+') <==> sgn == "+")
    ensures s[|a| + |sgn|..] == z
  {
    assert s == a + (sgn + z);
    SkipsBlanks(a, sgn + z, 0);
    assert s[|a|..] == sgn + z;
  }

  lemma StartsAt(s: string, n: nat, z: string)
    requires n <= |s| && s[n..] == z
    ensures At(s, n, '0') <==> "0" <= z
    ensures At(s, n, '0') && At(s, n + 1, 'x') <==> "0x" <= z
    ensures At(s, n, '0') && At(s, n + 1, 'X') <==> "0X" <= z
  {
    assert forall k | 0 <= k < |z| :: s[n + k] == z[k];
  }

  /** In base `base` the digits `z` are read in base `b`, behind the characters `pre` that select it. */
  predicate Picks(base: int, pre: string, z: string, rest: string, b: nat) {
    if pre == "" then
      if base == 0 then b == 10 && !("0" <= z) else base == b && !(b == 16 && ("0x" <= z + rest || "0X" <= z + rest))
    else if pre == "0" then base == 0 && b == 8
    else (pre == "0x" || pre == "0X") && (base == 0 || base == 16) && b == 16
  }

  /** A number in a text: white space, a sign, the characters that select the base, digits, and something else. */
  ghost predicate Number(a: string, sgn: string, base: int, pre: string, z: string, rest: string, b: nat) {
    && AllSpace(a) && IsSign(sgn) && 2 <= b <= 36 && Picks(base, pre, z, rest, b)
    && z != "" && (forall k | 0 <= k < |z| :: DigitOf(z[k]) < b) && (rest != "" ==> DigitOf(rest[0]) >= b)
  }

  /** Its digits are found, wherever it ends. */
  lemma NumberFound(a: string, sgn: string, base: int, pre: string, z: string, rest: string, b: nat)
    requires Number(a, sgn, base, pre, z, rest, b)
    ensures var s, n := a + sgn + (pre + z + rest), |a| + |sgn| + |pre|;
            && Prefix(s, base) == (n, if sgn == "-" then '-' else '+', b)
            && Digits(s, base) == (z, n + |z|)
  {
    var s := a + sgn + (pre + z + rest);
    NumberStarts(a, sgn, base, pre, z, rest, b);
    assert s == a + sgn + pre + z + rest;
    DigitsEnd(a + sgn + pre, z, rest, b);
    DigitsAre(s, base, |a| + |sgn| + |pre|, z, b);
  }

  lemma NumberStarts(a: string, sgn: string, base: int, pre: string, z: string, rest: string, b: nat)
    requires Number(a, sgn, base, pre, z, rest, b)
    ensures Prefix(a + sgn + (pre + z + rest), base) == (|a| + |sgn| + |pre|, if sgn == "-" then '-' else '+', b)
  {
    assert DigitOf(z[0]) < b;
    BodyPicks(base, pre, z, rest, b);
    PrefixOn(a, sgn, pre + z + rest, base);
  }

  lemma DigitsAre(s: string, base: int, n: nat, z: string, b: nat)
    requires Prefix(s, base).0 == n && Prefix(s, base).2 == b && 2 <= b <= 36 && z != ""
    requires RunEnd(s, n, b) == n + |z| && s[n..n + |z|] == z
    ensures Digits(s, base) == (z, n + |z|)
  {
  }

  lemma DigitsEnd(front: string, z: string, rest: string, b: nat)
    requires (forall k | 0 <= k < |z| :: DigitOf(z[k]) < b) && (rest != "" ==> DigitOf(rest[0]) >= b)
    ensures var s, n := front + z + rest, |front|;
            RunEnd(s, n, b) == n + |z| && s[n..n + |z|] == z
  {
    var s, n := front + z + rest, |front|;
    forall k | n <= k < n + |z| ensures IsDigit(s, k, b) { assert s[k] == z[k - n]; }
    assert rest != "" ==> s[n + |z|] == rest[0];
    RunEndIs(s, n, n + |z|, b);
  }

  lemma BodyPicks(base: int, pre: string, z: string, rest: string, b: nat)
    requires Picks(base, pre, z, rest, b) && z != "" && DigitOf(z[0]) < b
    ensures var body := pre + z + rest;
            && body[0] == (if pre == "" then z[0] else '0')
            && ((base == 0 || base == 16) && ("0x" <= body || "0X" <= body) <==> |pre| == 2)
            && (base == 0 && "0" <= body <==> base == 0 && pre != "")
  {
    var body := pre + z + rest;
    if pre == "" { assert body == z + rest; }
    if pre == "0" { assert body[1] == z[0]; }
    if |pre| == 2 { assert body[..2] == pre; }
  }

  /** So strtol makes of a number its value with its sign, brought into the range of long, and strtoul the value, up
      to ULONG_MAX, or its negative modulo 2^32. Both store the end of its digits. */
  method ReadNumber(a: string, sgn: string, base: int, pre: string, z: string, rest: string, ghost b: nat)
    returns (l: int, u: nat, endl: Option<nat>, endu: Option<nat>)
    requires Number(a, sgn, base, pre, z, rest, b)
    ensures endl == endu == Some(|a| + |sgn| + |pre| + |z|)
    ensures var v: int := NumVal(z, b);
            && l == Clamp(if sgn == "-" then -v else v, LONG_MIN, LONG_MAX)
            && u == if v > ULONG_MAX then ULONG_MAX else if sgn == "-" then (-v) % 0x1_0000_0000 else v
  {
    NumberFound(a, sgn, base, pre, z, rest, b);
    l, endl := Strtol(a + sgn + (pre + z + rest), base);
    u, endu := Strtoul(a + sgn + (pre + z + rest), base);
  }
}
