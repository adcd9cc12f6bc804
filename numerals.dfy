/** Decimal digit strings: the number a digit string denotes (what `BigInt(s)`
    parses), BigInt's `toString()`, and the decimal numerals that
    `DemicalFormat.fromString` accepts, together with the exact number each
    numeral denotes. */
module Numerals {
  import opened Js
  import opened Utils

  predicate IsDigit(c: char)
  {
    '0' <= c <= '9'
  }

  predicate AllDigits(s: string)
  {
    forall i :: 0 <= i < |s| ==> IsDigit(s[i])
  }

  function DigitValue(c: char): (d: nat)
    requires IsDigit(c)
    ensures d < 10
  {
    c as int - '0' as int
  }

  function DigitChar(d: nat): (c: char)
    requires d < 10
    ensures IsDigit(c) && DigitValue(c) == d
  {
    ('0' as int + d) as char
  }

  /** The number a digit string denotes, most significant digit first. */
  function DigitsValue(s: string): nat
    requires AllDigits(s)
    decreases |s|
  {
    if s == [] then 0 else DigitsValue(s[..|s| - 1]) * 10 + DigitValue(s[|s| - 1])
  }

  /** `BigInt.prototype.toString()` for a non-negative value. */
  function NatToString(n: nat): (s: string)
    ensures AllDigits(s) && |s| >= 1 && DigitsValue(s) == n
    ensures s[0] == '0' <==> n == 0
    ensures n == 0 ==> s == "0"
  {
    if n < 10 then [DigitChar(n)]
    else
      var p := NatToString(n / 10);
      var s := p + [DigitChar(n % 10)];
      assert s[..|s| - 1] == p;
      s
  }

  /** `BigInt.prototype.toString()`: a minus sign, then the digits of |n|. */
  function IntToString(n: int): string
  {
    if n < 0 then "-" + NatToString(-n) else NatToString(n)
  }

  /** `BigInt(s)`, modelled for digit strings only (the empty string gives 0n);
      signs, white space and radix prefixes are not modelled, and every string
      that reaches it in this model is a digit string. */
  function ParseBigInt(s: string): (r: Option<int>)
  {
    if AllDigits(s) then Some(DigitsValue(s)) else None
  }

  lemma AllDigitsConcat(a: string, b: string)
    ensures AllDigits(a + b) <==> AllDigits(a) && AllDigits(b)
  {
    if AllDigits(a + b) {
      forall i | 0 <= i < |a| ensures IsDigit(a[i]) {
        assert (a + b)[i] == a[i];
      }
      forall i | 0 <= i < |b| ensures IsDigit(b[i]) {
        assert (a + b)[|a| + i] == b[i];
      }
    }
    if AllDigits(a) && AllDigits(b) {
      forall i | 0 <= i < |a + b| ensures IsDigit((a + b)[i]) {
        if i < |a| {
          assert (a + b)[i] == a[i];
        } else {
          assert (a + b)[i] == b[i - |a|];
        }
      }
    }
  }

  lemma ShiftDigit(v: int, p: int, w: int, dg: int)
    ensures (v * p + w) * 10 + dg == v * (10 * p) + (w * 10 + dg)
  {
  }

  lemma {:induction false} DigitsValueConcat(s: string, t: string)
    requires AllDigits(s) && AllDigits(t)
    ensures AllDigits(s + t)
    ensures DigitsValue(s + t) == DigitsValue(s) * Power(10, |t|) + DigitsValue(t)
    decreases |t|
  {
    AllDigitsConcat(s, t);
    if t == [] {
      assert s + t == s;
    } else {
      var t' := t[..|t| - 1];
      assert (s + t)[..|s + t| - 1] == s + t';
      assert (s + t)[|s + t| - 1] == t[|t| - 1];
      DigitsValueConcat(s, t');
      var vs, p, vt, dg := DigitsValue(s), Power(10, |t'|), DigitsValue(t'), DigitValue(t[|t| - 1]);
      assert DigitsValue(s + t) == (vs * p + vt) * 10 + dg;
      assert DigitsValue(t) == vt * 10 + dg;
      assert Power(10, |t|) == 10 * p;
      ShiftDigit(vs, p, vt, dg);
    }
  }

  lemma {:induction false} DigitsValueOfZeros(k: nat)
    ensures AllDigits(Repeat('0', k)) && DigitsValue(Repeat('0', k)) == 0
  {
    if k > 0 {
      assert Repeat('0', k)[..k - 1] == Repeat('0', k - 1);
      DigitsValueOfZeros(k - 1);
    }
  }

  /** Leading zeros do not change the value of a digit string. */
  lemma DigitsValueLeadingZeros(k: nat, s: string)
    requires AllDigits(s)
    ensures AllDigits(Repeat('0', k) + s)
    ensures DigitsValue(Repeat('0', k) + s) == DigitsValue(s)
  {
    DigitsValueOfZeros(k);
    DigitsValueConcat(Repeat('0', k), s);
  }

  /** Trailing zeros multiply the value of a digit string by a power of ten. */
  lemma DigitsValueTrailingZeros(s: string, k: nat)
    requires AllDigits(s)
    ensures AllDigits(s + Repeat('0', k))
    ensures DigitsValue(s + Repeat('0', k)) == DigitsValue(s) * Power(10, k)
  {
    DigitsValueOfZeros(k);
    DigitsValueConcat(s, Repeat('0', k));
  }

  lemma SuffixOfDigits(s: string, k: nat)
    requires AllDigits(s) && k <= |s|
    ensures AllDigits(s[k..])
  {
    forall i | 0 <= i < |s[k..]| ensures IsDigit(s[k..][i]) {
      assert s[k..][i] == s[k + i];
    }
  }

  lemma PrefixOfDigits(s: string, k: nat)
    requires AllDigits(s) && k <= |s|
    ensures AllDigits(s[..k])
  {
    forall i | 0 <= i < k ensures IsDigit(s[..k][i]) {
      assert s[..k][i] == s[i];
    }
  }

  /** The last digit of a digit string is its value modulo 10. */
  lemma LastDigit(s: string)
    requires AllDigits(s) && s != []
    ensures DigitsValue(s) % 10 == DigitValue(s[|s| - 1])
  {
  }

  /** The pattern `(^[0-9]+$)|(^[0-9]+\.[0-9]*$)`: a non-empty run of digits,
      optionally followed by a `.` and a possibly empty run of digits. */
  predicate IsNumeral(s: string)
  {
    var k := IndexOf(s, '.');
    if k < 0 then s != [] && AllDigits(s)
    else k > 0 && AllDigits(s[..k]) && AllDigits(s[k + 1..])
  }

  /** The digits before the `.` (all of them when there is none). */
  function IntPart(s: string): string
  {
    var k := IndexOf(s, '.');
    if k < 0 then s else s[..k]
  }

  /** The digits after the `.` (none when there is no `.`). */
  function FracPart(s: string): string
  {
    var k := IndexOf(s, '.');
    if k < 0 then [] else s[k + 1..]
  }

  lemma NumeralParts(s: string)
    requires IsNumeral(s)
    ensures IntPart(s) != [] && AllDigits(IntPart(s)) && AllDigits(FracPart(s))
    ensures AllDigits(IntPart(s) + FracPart(s))
    ensures '.' !in IntPart(s) && '.' !in FracPart(s)
    ensures '.' in s ==> s == IntPart(s) + "." + FracPart(s)
    ensures '.' !in s ==> s == IntPart(s) && FracPart(s) == []
  {
    var k := IndexOf(s, '.');
    if k >= 0 {
      assert s == s[..k] + "." + s[k + 1..];
      assert '.' !in s[k + 1..];
    }
    AllDigitsConcat(IntPart(s), FracPart(s));
  }

  /** A run of digits before a `.` and after it makes a numeral with those parts. */
  lemma NumeralWithPoint(i: string, f: string)
    requires i != [] && AllDigits(i) && AllDigits(f)
    ensures IsNumeral(i + "." + f) && '.' in i + "." + f
    ensures IntPart(i + "." + f) == i && FracPart(i + "." + f) == f
  {
    assert '.' !in i;
    IndexOfConcat(i, '.', f);
    var s := i + "." + f;
    assert s[..|i|] == i && s[|i| + 1..] == f;
    assert s[|i|] == '.';
  }

  /** A non-empty run of digits is a numeral without a fraction. */
  lemma NumeralWithoutPoint(i: string)
    requires i != [] && AllDigits(i)
    ensures IsNumeral(i) && '.' !in i
    ensures IntPart(i) == i && FracPart(i) == []
  {
    assert '.' !in i;
  }

  /** The number a numeral denotes is `Mantissa(s) / 10^Scale(s)`. */
  function Mantissa(s: string): nat
    requires IsNumeral(s)
  {
    var digits := IntPart(s) + FracPart(s);
    if AllDigits(digits) then DigitsValue(digits) else 0
  }

  function Scale(s: string): nat
  {
    |FracPart(s)|
  }

  /** `v1 / 10^d1` and `v2 / 10^d2` are the same number. */
  predicate SameNumber(v1: int, d1: nat, v2: int, d2: nat)
  {
    v1 * Power(10, d2) == v2 * Power(10, d1)
  }

  lemma SameNumberTransitive(v1: int, d1: nat, v2: int, d2: nat, v3: int, d3: nat)
    requires SameNumber(v1, d1, v2, d2) && SameNumber(v2, d2, v3, d3)
    ensures SameNumber(v1, d1, v3, d3)
  {
    var p1, p2, p3 := Power(10, d1), Power(10, d2), Power(10, d3);
    assert p2 > 0;
    calc {
      (v1 * p3) * p2;
      (v1 * p2) * p3;
      (v2 * p1) * p3;
      (v2 * p3) * p1;
      (v3 * p2) * p1;
      (v3 * p1) * p2;
    }
    MultiplicationCancels(v1 * p3, v3 * p1, p2);
  }

  lemma MultiplicationCancels(a: int, b: int, p: int)
    requires p > 0 && a * p == b * p
    ensures a == b
  {
  }

  /** Appending `j` zero digits to the mantissa and `j` to the scale does not
      change the number. */
  lemma SameNumberScaled(v: int, d: nat, j: nat)
    ensures SameNumber(v * Power(10, j), d + j, v, d)
  {
    PowerAdd(10, d, j);
    Rearrange(v, Power(10, j), Power(10, d));
  }

  lemma Rearrange(a: int, b: int, c: int)
    ensures (a * b) * c == a * (c * b)
  {
  }
}
