/** Printing a number and reading it back: numfmt of lib/libutil/src/format.c, then strtoul. The digit
    table of numfmt has no N, so this gives the number back exactly if all its digits are below 23. */
module NumRoundTrip {
  import opened StrTo
  import opened NumFmt

  /** The table is right for all digits of the number. */
  ghost predicate Clean(num: nat, base: nat)
    requires base >= 2
  {
    forall k | 0 <= k < |DigitsOf(num, base)| :: DigitsOf(num, base)[k] < 23
  }

  /** How a printed digit is read: from 23 on as the next one, and 35 not at all. */
  lemma ReadChar(d: nat)
    requires d <= 35
    ensures DigitOf(CharOf(d)) == if d < 23 then d else if d < 35 then d + 1 else 36
    ensures CharOf(d) == NUL <==> d == 35
    ensures d < 35 ==> !IsSpace(CharOf(d)) && CharOf(d) != '+' && CharOf(d) != '-' && CharOf(d) != 'x'
    ensures d < 23 ==> CharOf(d) != 'X'
  {
  }

  // ---------- values ----------

  /** Leading zeros do not count. */
  lemma {:induction false} LeadingZeros(z: string, s: string, base: nat)
    requires forall k | 0 <= k < |z| :: z[k] == '0'
    ensures NumVal(z + s, base) == NumVal(s, base)
    decreases |z| + |s|
  {
    if s != [] {
      var n := |s| - 1;
      assert (z + s)[..|z| + n] == z + s[..n];
      LeadingZeros(z, s[..n], base);
    } else if z != [] {
      var n := |z| - 1;
      assert z + s == z && (z + s)[..n] == z[..n] + [];
      LeadingZeros(z[..n], [], base);
    }
  }

  /** Fewer digits than a number has cannot make the number. */
  lemma {:induction false} NumValBelow(s: string, base: nat)
    requires base >= 1 && forall k | 0 <= k < |s| :: IsDigit(s, k, base)
    ensures NumVal(s, base) < Pow(base, |s|)
    decreases |s|
  {
    if s != [] {
      var n := |s| - 1;
      forall k | 0 <= k < n ensures IsDigit(s[..n], k, base) { assert IsDigit(s, k, base); }
      NumValBelow(s[..n], base);
      assert IsDigit(s, n, base);
      Carry(NumVal(s[..n], base), Pow(base, n), DigitOf(s[n]), base);
    }
  }

  lemma Carry(v: nat, p: nat, d: nat, base: nat)
    requires v < p && d < base
    ensures v * base + d < base * p
  {
    assert (v + 1) * base <= p * base;
  }

  lemma {:induction false} PowGrows(b: nat, i: nat, j: nat)
    requires b >= 1 && i <= j
    ensures 1 <= Pow(b, i) <= Pow(b, j)
    decreases j
  {
    if i < j {
      PowGrows(b, i, j - 1);
      Scales(Pow(b, j - 1), b);
    } else if i > 0 {
      PowGrows(b, i - 1, i - 1);
      Scales(Pow(b, i - 1), b);
    }
  }

  lemma Lift(p: nat, num: nat, base: nat)
    requires base >= 2 && p <= num / base
    ensures base * p <= num
  {
    Limit(num, base);
    assert base * p <= base * (num / base);
  }

  lemma {:induction false} DigitsLow(num: nat, base: nat)
    requires base >= 2 && num > 0
    ensures Pow(base, |DigitsOf(num, base)| - 1) <= num
    decreases num
  {
    if num >= base {
      Halves(num, base);
      DigitsLow(num / base, base);
      Lift(Pow(base, |DigitsOf(num / base, base)| - 1), num, base);
    }
  }

  /** The printed digits, all read, make at least the number; more if one of them is read wrong. */
  lemma {:induction false} ReadAtLeast(num: nat, base: nat)
    requires 2 <= base <= 36
    ensures NumVal(Chars(DigitsOf(num, base)), base) >= num
    ensures Clean(num, base) <==> NumVal(Chars(DigitsOf(num, base)), base) == num
    decreases num
  {
    var ds := DigitsOf(num, base);
    var n := |ds| - 1;
    DigitsBelow(num, base, n);
    ReadChar(ds[n]);
    if num < base {
      assert Chars(ds)[..0] == [];
    } else {
      Halves(num, base);
      ReadAtLeast(num / base, base);
      var front := DigitsOf(num / base, base);
      assert Chars(ds)[..n] == Chars(front);
      assert ds == front + [num % base];
      CleanFront(num, base);
      Compare(NumVal(Chars(front), base), num / base, DigitOf(CharOf(num % base)), num % base, base);
    }
  }

  lemma CleanFront(num: nat, base: nat)
    requires 2 <= base <= num
    ensures Clean(num, base) <==> Clean(num / base, base) && num % base < 23
  {
    var ds, front := DigitsOf(num, base), DigitsOf(num / base, base);
    assert ds == front + [num % base];
    assert forall k | 0 <= k < |front| :: ds[k] == front[k];
    assert ds[|front|] == num % base;
  }

  lemma Compare(v: nat, q: nat, d: nat, r: nat, base: nat)
    requires v >= q && d >= r && base >= 1
    ensures v * base + d >= q * base + r
    ensures v * base + d == q * base + r <==> v == q && d == r
  {
    if v > q { assert (q + 1) * base <= v * base; }
  }

  // ---------- the printed text ----------

  /** The part of the printed digits that is read, and its value. */
  function ReadPart(num: nat, base: nat): (r: string)
    requires base >= 2
  {
    var t := Cut(Chars(DigitsOf(num, base)));
    t[..RunEnd(t, 0, base)]
  }

  /** What is read of the digits is the number exactly if they are all right. Otherwise reading stops
      early and yields less, or goes on and yields more. */
  lemma ReadPartIff(num: nat, base: nat)
    requires 2 <= base <= 36
    ensures NumVal(ReadPart(num, base), base) == num <==> Clean(num, base)
  {
    var ds := DigitsOf(num, base);
    var chars := Chars(ds);
    var t := Cut(chars);
    var r := RunEnd(t, 0, base);
    ReadAtLeast(num, base);
    if r == |ds| {
      assert t == chars && t[..r] == chars;
    } else {
      ReadStops(num, base);
      assert num == 0 ==> ds == [0];
      forall k | 0 <= k < r ensures IsDigit(t[..r], k, base) { assert IsDigit(t, k, base); }
      NumValBelow(t[..r], base);
      PowGrows(base, r, |ds| - 1);
      DigitsLow(num, base);
    }
  }

  /** If reading stops before the last digit, some digit is wrong. */
  lemma {:induction false} ReadStops(num: nat, base: nat)
    requires 2 <= base <= 36 && |ReadPart(num, base)| < |DigitsOf(num, base)|
    ensures !Clean(num, base)
  {
    var ds := DigitsOf(num, base);
    var t := Cut(Chars(ds));
    var r := RunEnd(t, 0, base);
    DigitsBelow(num, base, r);
    ReadChar(ds[r]);
    if r < |t| {
      assert t[r] == CharOf(ds[r]) && !IsDigit(t, r, base);
    } else {
      assert Chars(ds)[r] == NUL;
    }
  }

  lemma {:induction false} SkipIs(s: string, i: nat, k: nat)
    requires i <= k <= |s| && (forall j | i <= j < k :: IsSpace(s[j])) && (k < |s| ==> !IsSpace(s[k]))
    ensures Skip(s, i) == k
    decreases k - i
  {
    if i < k { SkipIs(s, i + 1, k); }
  }

  /** A character that a number without sign may start with. */
  predicate Plain(c: char, base: nat) {
    !IsSpace(c) && c != '+' && c != '-' && c != 'x' && (base == 16 ==> c != 'X')
  }

  lemma PrefixIs(a: string, z: string, base: nat)
    requires 2 <= base <= 36 && (forall k | 0 <= k < |a| :: a[k] == ' ') && forall k | 0 <= k < |z| :: Plain(z[k], base)
    ensures Prefix(a + z, base) == (|a|, '+', base)
  {
    var s := a + z;
    assert forall k | |a| <= k < |s| :: s[k] == z[k - |a|] && Plain(z[k - |a|], base);
    SkipIs(s, 0, |a|);
  }

  lemma PlainChars(num: nat, base: nat, k: nat)
    requires 2 <= base <= 36 && k < |Cut(Chars(DigitsOf(num, base)))|
    ensures Plain(Cut(Chars(DigitsOf(num, base)))[k], base)
  {
    var ds := DigitsOf(num, base);
    DigitsBelow(num, base, k);
    ReadChar(ds[k]);
    assert Cut(Chars(ds))[k] == CharOf(ds[k]);
  }

  /** The digits of the text, which has no sign, make `v`. */
  predicate ReadsAs(s: string, base: nat, v: nat)
    requires 2 <= base <= 36
  {
    Prefix(s, base).1 == '+' && Prefix(s, base).2 == base && NumVal(Digits(s, base).0, base) == v
  }

  /** Blanks and zeros in front do not change what is read. */
  lemma PaddedReads(a: string, z: string, t: string, base: nat)
    requires 2 <= base <= 36 && (forall k | 0 <= k < |a| :: a[k] == ' ') && (forall k | 0 <= k < |z| :: z[k] == '0')
    requires forall k | 0 <= k < |t| :: Plain(t[k], base)
    ensures ReadsAs(a + (z + t), base, NumVal(t[..RunEnd(t, 0, base)], base))
  {
    forall k | 0 <= k < |z + t| ensures Plain((z + t)[k], base) {
      if k >= |z| { assert Plain(t[k - |z|], base); }
    }
    PrefixIs(a, z + t, base);
    RunOf(a, z, t, base);
    LeadingZeros(z, t[..RunEnd(t, 0, base)], base);
  }

  lemma TextReads(num: nat, base: nat, pad: int, pc: char)
    requires 2 <= base <= 36 && (pc == ' ' || pc == '0')
    ensures ReadsAs(Text(num, base, pad, pc), base, NumVal(ReadPart(num, base), base))
  {
    var ds := DigitsOf(num, base);
    var t, padding := Cut(Chars(ds)), Padding(pad - |ds|, pc);
    forall k | 0 <= k < |t| ensures Plain(t[k], base) { PlainChars(num, base, k); }
    if pc == ' ' {
      assert padding + t == padding + ([] + t);
      PaddedReads(padding, [], t, base);
    } else {
      assert padding + t == [] + (padding + t);
      PaddedReads([], padding, t, base);
    }
  }

  lemma {:induction false} RunOf(a: string, z: string, t: string, base: nat)
    requires 2 <= base <= 36 && forall k | 0 <= k < |z| :: z[k] == '0'
    ensures var s, r := a + (z + t), RunEnd(t, 0, base);
            RunEnd(s, |a|, base) == |a| + |z| + r && s[|a|..|a| + |z| + r] == z + t[..r]
  {
    var s, r := a + (z + t), RunEnd(t, 0, base);
    forall k | |a| <= k < |a| + |z| + r ensures IsDigit(s, k, base) {
      if k >= |a| + |z| {
        assert IsDigit(t, k - |a| - |z|, base) && s[k] == t[k - |a| - |z|];
      } else {
        assert s[k] == z[k - |a|];
      }
    }
    assert r < |t| ==> s[|a| + |z| + r] == t[r];
    RunEndIs(s, |a|, |a| + |z| + r, base);
  }

  /** numfmt, then strtoul: below ULONG_MAX the number comes back exactly if all its digits are below 23,
      which in base 2 to 23 they always are; ULONG_MAX itself comes back if they are. */
  method PrintThenRead(num: nat, base: int, pad: int, pc: char) returns (r: nat)
    requires num <= ULONG_MAX && 2 <= base <= 36 && (pc == ' ' || pc == '0')
    ensures num < ULONG_MAX ==> (r == num <==> Clean(num, base))
    ensures Clean(num, base) || base <= 23 ==> r == num
  {
    var out := Numfmt(num, base, pad, pc);
    var end;
    r, end := Strtoul(out.text, base);
    TextReads(num, base, pad, pc);
    ReadPartIff(num, base);
    if base <= 23 { SmallBase(num, base); }
  }

  lemma SmallBase(num: nat, base: nat)
    requires 2 <= base <= 23
    ensures Clean(num, base)
  {
    forall k | 0 <= k < |DigitsOf(num, base)| ensures DigitsOf(num, base)[k] < 23 { DigitsBelow(num, base, k); }
  }

  /** 23 in base 24 is printed as O, which is not a digit there. */
  lemma Digit23()
    ensures !Clean(23, 24) && ReadPart(23, 24) == ""
  {
    var c := Chars([23]);
    assert DigitsOf(23, 24) == [23] && c == ['O'];
    assert Cut(c) <= c;
  }
}
