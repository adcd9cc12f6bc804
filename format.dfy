/** `src/internal/format.ts`: canonical rendering of numeric strings,
    truncation, and shortening a long text with an ellipsis in the middle. */
module Format {
  import opened Js
  import opened Utils
  import opened Numerals

  // ---------------------------------------------------------------------------
  // formatNumeric
  // ---------------------------------------------------------------------------

  /** `s.replace(/^0+/, '')`. */
  function StripLeadingZeros(s: string): (r: string)
    ensures |r| <= |s|
  {
    if s != [] && s[0] == '0' then StripLeadingZeros(s[1..]) else s
  }

  /** What the stripping removes: a run of zeros, and all of it. */
  lemma {:induction false} StripLeadingZerosSpec(s: string)
    ensures var r := StripLeadingZeros(s);
      && |r| <= |s|
      && s == Repeat('0', |s| - |r|) + r
      && (r == [] || r[0] != '0')
  {
    if s != [] && s[0] == '0' {
      StripLeadingZerosSpec(s[1..]);
      var r := StripLeadingZeros(s[1..]);
      assert s == [s[0]] + s[1..];
      assert [s[0]] + Repeat('0', |s| - 1 - |r|) == Repeat('0', |s| - |r|);
    } else {
      assert Repeat('0', 0) + s == s;
    }
  }

  /** `s.replace(/0+$/, '')`. */
  function StripTrailingZeros(s: string): (r: string)
    ensures |r| <= |s|
  {
    if s != [] && s[|s| - 1] == '0' then StripTrailingZeros(s[..|s| - 1]) else s
  }

  lemma {:induction false} StripTrailingZerosSpec(s: string)
    ensures var r := StripTrailingZeros(s);
      && |r| <= |s|
      && s == r + Repeat('0', |s| - |r|)
      && (r == [] || r[|r| - 1] != '0')
  {
    if s != [] && s[|s| - 1] == '0' {
      StripTrailingZerosSpec(s[..|s| - 1]);
      var r := StripTrailingZeros(s[..|s| - 1]);
      assert s == s[..|s| - 1] + [s[|s| - 1]];
      assert Repeat('0', |s| - 1 - |r|) + [s[|s| - 1]] == Repeat('0', |s| - |r|);
    } else {
      assert s + Repeat('0', 0) == s;
    }
  }

  /** The first four edits of `formatNumeric`: leading zeros removed, trailing
      zeros removed when there is a `.`, a `0` put before a leading `.`, and
      the empty string replaced by `"0"`. */
  function Canonical(ss: string): string
  {
    var s1 := StripLeadingZeros(ss);
    var s2 := if '.' in s1 then StripTrailingZeros(s1) else s1;
    var s3 := if |s2| > 0 && s2[0] == '.' then "0" + s2 else s2;
    if s3 == "" then "0" else s3
  }

  /** `s.slice(0, width)` when the string is longer than `width`. */
  function TrimToWidth(s: string, width: Option<int>): string
  {
    if width.Some? && |s| > width.value then Slice(s, 0, width.value) else s
  }

  /** `if (s.slice(-1) === ".") s = s.slice(0, -1)`. */
  function DropTrailingPoint(s: string): (r: string)
    ensures r == if s != [] && s[|s| - 1] == '.' then s[..|s| - 1] else s
  {
    assert |s| > 0 ==> Slice(s, -1, |s|) == [s[|s| - 1]];
    if Slice(s, -1, |s|) == "." then Slice(s, 0, -1) else s
  }

  /** What `formatNumeric(ss, width)` returns. */
  function Formatted(ss: string, width: Option<int>): string
  {
    DropTrailingPoint(TrimToWidth(Canonical(ss), width))
  }

  /** `formatNumeric(ss, width?)`, edit by edit. */
  method FormatNumeric(ss: string, width: Option<int> := None) returns (s: string)
    ensures s == Formatted(ss, width)
  {
    s := ss;
    s := StripLeadingZeros(s);
    if '.' in s {
      s := StripTrailingZeros(s);
    }
    if |s| > 0 && s[0] == '.' {
      s := "0" + s;
    }
    s := if s == "" then "0" else s;
    if width.Some? && |s| > width.value {
      s := Slice(s, 0, width.value);
    }
    if Slice(s, -1, |s|) == "." {
      s := Slice(s, 0, -1);
    }
  }

  lemma CanonicalShape(ss: string)
    ensures Canonical(ss) != [] && Canonical(ss)[0] != '.'
    ensures Canonical(ss)[0] == '0' ==> Canonical(ss) == "0" || Canonical(ss)[1] == '.'
  {
    var s1 := StripLeadingZeros(ss);
    StripLeadingZerosSpec(ss);
    if '.' in s1 {
      var s2 := StripTrailingZeros(s1);
      StripTrailingZerosSpec(s1);
      assert s2 != [] ==> s2[0] == s1[0];
    }
  }

  /** Without a width, the result is never empty. */
  lemma FormattedNotEmpty(ss: string)
    ensures Formatted(ss, None) != []
  {
    CanonicalShape(ss);
  }

  /** With a width `w >= 0`, the result has at most `w` characters and is a
      prefix of the result without a width: truncation comes before the
      removal of a trailing `.`. */
  lemma FormattedWithinWidth(ss: string, w: int)
    requires w >= 0
    ensures |Formatted(ss, Some(w))| <= w
    ensures Formatted(ss, Some(w)) <= Formatted(ss, None)
  {
    var c := Canonical(ss);
    if |c| > w {
      assert TrimToWidth(c, Some(w)) == c[..w];
      assert c[..w] <= DropTrailingPoint(c);
    }
  }

  /** The result never starts with `.`, and starts with `0` only as `"0"` or
      as `"0."` followed by more. */
  lemma FormattedShape(ss: string, width: Option<int>)
    ensures var r := Formatted(ss, width);
      r != [] ==> r[0] != '.' && (r[0] == '0' ==> r == "0" || r[1] == '.')
  {
    CanonicalShape(ss);
    var c := Canonical(ss);
    var t := TrimToWidth(c, width);
    assert t <= c;
    assert DropTrailingPoint(t) <= t;
  }

  /** `s.replace(/^0+/, '')` on `a + b` acts on `a` alone when `b` does not
      start with `0`. */
  lemma {:induction false} StripLeadingZerosAppend(a: string, b: string)
    requires b != [] && b[0] != '0'
    ensures StripLeadingZeros(a + b) == StripLeadingZeros(a) + b
  {
    if a != [] && a[0] == '0' {
      assert (a + b)[1..] == a[1..] + b;
      StripLeadingZerosAppend(a[1..], b);
    }
  }

  /** `s.replace(/0+$/, '')` on `a + b` acts on `b` alone when `a` does not
      end with `0`. */
  lemma {:induction false} StripTrailingZerosPrepend(a: string, b: string)
    requires a != [] && a[|a| - 1] != '0'
    ensures StripTrailingZeros(a + b) == a + StripTrailingZeros(b)
    decreases |b|
  {
    if b != [] && b[|b| - 1] == '0' {
      assert (a + b)[..|a + b| - 1] == a + b[..|b| - 1];
      StripTrailingZerosPrepend(a, b[..|b| - 1]);
    } else if b == [] {
      assert a + b == a;
    }
  }

  /** The integer part left after stripping its leading zeros, or `0`. */
  function LeadZero(s: string): (r: string)
    ensures r != []
  {
    if s == [] then "0" else s
  }

  lemma CanonicalByParts(x: string, s1: string, s2: string)
    requires StripLeadingZeros(x) == s1 && '.' in s1 && StripTrailingZeros(s1) == s2
    ensures Canonical(x) == if |s2| > 0 && s2[0] == '.' then "0" + s2 else if s2 == "" then "0" else s2
  {
  }

  lemma CanonicalWithPoint(i: string, f: string)
    requires AllDigits(i) && AllDigits(f)
    ensures Canonical(i + "." + f)
      == LeadZero(StripLeadingZeros(i)) + "." + StripTrailingZeros(f)
  {
    var i' := StripLeadingZeros(i);
    var f' := StripTrailingZeros(f);
    StripLeadingZerosSpec(i);
    LeadingZerosBeforePoint(i, f);
    TrailingZerosAfterPoint(i', f);
    CanonicalByParts(i + "." + f, i' + "." + f, i' + "." + f');
    assert i' == [] || IsDigit(i'[0]) by {
      SuffixOfDigits(i, |i| - |i'|);
    }
    PointAfterLeadZero(i', f');
  }

  lemma LeadingZerosBeforePoint(i: string, f: string)
    ensures StripLeadingZeros(i + "." + f) == StripLeadingZeros(i) + "." + f
  {
    StripLeadingZerosAppend(i, "." + f);
    assert i + "." + f == i + ("." + f);
  }

  lemma TrailingZerosAfterPoint(i: string, f: string)
    ensures '.' in i + "." + f
    ensures StripTrailingZeros(i + "." + f) == i + "." + StripTrailingZeros(f)
  {
    assert (i + "." + f)[|i|] == '.';
    StripTrailingZerosPrepend(i + ".", f);
  }

  lemma PointAfterLeadZero(i': string, f': string)
    requires i' == [] || IsDigit(i'[0])
    ensures var s2 := i' + "." + f';
      (if |s2| > 0 && s2[0] == '.' then "0" + s2 else if s2 == "" then "0" else s2)
      == LeadZero(i') + "." + f'
  {
    var s2 := i' + "." + f';
    if i' == [] {
      assert s2 == "." + f';
    } else {
      assert s2[0] == i'[0];
    }
  }

  lemma CanonicalWithoutPoint(ss: string)
    requires IsNumeral(ss) && '.' !in ss
    ensures Canonical(ss) == LeadZero(StripLeadingZeros(ss))
    ensures AllDigits(StripLeadingZeros(ss))
  {
    NumeralParts(ss);
    var s1 := StripLeadingZeros(ss);
    StripLeadingZerosSpec(ss);
    var k := |ss| - |s1|;
    SuffixOfDigits(ss, k);
    assert s1 == ss[k..];
    assert '.' !in s1;
    if s1 != [] {
      assert IsDigit(ss[k]);
    }
  }

  lemma StrippedDigits(i: string, f: string)
    requires AllDigits(i) && AllDigits(f)
    ensures AllDigits(LeadZero(StripLeadingZeros(i))) && AllDigits(StripTrailingZeros(f))
  {
    var i' := StripLeadingZeros(i);
    StripLeadingZerosSpec(i);
    StripTrailingZerosSpec(f);
    SuffixOfDigits(i, |i| - |i'|);
    assert i' == i[|i| - |i'|..];
    var f' := StripTrailingZeros(f);
    PrefixOfDigits(f, |f'|);
    assert f' == f[..|f'|];
  }

  /** Zeros on the left leave the value of a digit string alone; zeros on the
      right scale it by a power of ten. */
  lemma DigitsValueBetweenZeros(k: nat, m: string, j: nat)
    requires AllDigits(m)
    ensures AllDigits(Repeat('0', k) + m + Repeat('0', j))
    ensures DigitsValue(Repeat('0', k) + m + Repeat('0', j)) == DigitsValue(m) * Power(10, j)
  {
    DigitsValueLeadingZeros(k, m);
    DigitsValueTrailingZeros(Repeat('0', k) + m, j);
  }

  lemma LeadZeroValue(i: string, f: string)
    requires AllDigits(i) && AllDigits(f)
    ensures AllDigits(i + f) && AllDigits(LeadZero(i) + f)
    ensures DigitsValue(LeadZero(i) + f) == DigitsValue(i + f)
  {
    AllDigitsConcat(i, f);
    AllDigitsConcat(LeadZero(i), f);
    if i == [] {
      assert LeadZero(i) + f == Repeat('0', 1) + f;
      DigitsValueLeadingZeros(1, f);
      assert i + f == f;
    }
  }

  /** Leading zeros of the integer part and trailing zeros of the fraction
      change only the scale of a numeral's mantissa. */
  lemma MantissaWithoutZeros(i: string, f: string)
    requires AllDigits(i) && AllDigits(f)
    ensures AllDigits(LeadZero(StripLeadingZeros(i)))
    ensures AllDigits(StripTrailingZeros(f))
    ensures AllDigits(LeadZero(StripLeadingZeros(i)) + StripTrailingZeros(f))
    ensures DigitsValue(i + f) == DigitsValue(LeadZero(StripLeadingZeros(i)) + StripTrailingZeros(f))
                                  * Power(10, |f| - |StripTrailingZeros(f)|)
  {
    var i', f' := StripLeadingZeros(i), StripTrailingZeros(f);
    StripLeadingZerosSpec(i);
    StripTrailingZerosSpec(f);
    ValueWithoutZeros(i, f, i', f', |i| - |i'|, |f| - |f'|);
  }

  /** The same for any split of `i` into zeros and `i'`, and of `f` into `f'`
      and zeros. */
  lemma ValueWithoutZeros(i: string, f: string, i': string, f': string, k: nat, j: nat)
    requires AllDigits(i) && AllDigits(f)
    requires i == Repeat('0', k) + i' && f == f' + Repeat('0', j)
    ensures AllDigits(LeadZero(i')) && AllDigits(f') && AllDigits(LeadZero(i') + f')
    ensures DigitsValue(i + f) == DigitsValue(LeadZero(i') + f') * Power(10, j)
  {
    assert AllDigits(i') by { SuffixOfDigits(i, k); assert i' == i[k..]; }
    assert AllDigits(f') by { PrefixOfDigits(f, |f'|); assert f' == f[..|f'|]; }
    LeadZeroValue(i', f');
    Regroup(Repeat('0', k), i', f', Repeat('0', j));
    DigitsValueBetweenZeros(k, i' + f', j);
  }

  lemma Regroup(a: string, b: string, c: string, d: string)
    ensures (a + b) + (c + d) == a + (b + c) + d
  {
  }

  /** `r` is a numeral for `m / 10^d` with no superfluous zeros: its integer
      part is `0` or does not start with `0`, it does not end with `.`, and its
      fraction, when not empty, does not end with `0` (so its mantissa is then
      not a multiple of ten); its fraction is no longer than `d`. */
  predicate CanonicalFor(r: string, m: int, d: nat)
  {
    && IsNumeral(r)
    && r[|r| - 1] != '.'
    && ('.' in r <==> Scale(r) > 0)
    && Scale(r) <= d
    && SameNumber(Mantissa(r), Scale(r), m, d)
    && (Scale(r) > 0 ==> Mantissa(r) % 10 != 0)
    && (IntPart(r) == "0" || IntPart(r)[0] != '0')
  }

  lemma FormattedNumeralWithPoint(ss: string)
    requires IsNumeral(ss) && '.' in ss
    ensures CanonicalFor(Formatted(ss, None), Mantissa(ss), Scale(ss))
  {
    var a, b := CanonicalParts(ss);
    CanonicalNumeral(Mantissa(ss), Scale(ss), a, b, Formatted(ss, None));
  }

  /** The contract of `FormattedNumeralWithPoint`, for the canonical parts of
      a numeral for `m / 10^d`. */
  lemma CanonicalNumeral(m: int, d: nat, a: string, b: string, r: string)
    requires CanonicalPartsOf(a, b, r, m, d)
    ensures CanonicalFor(r, m, d)
  {
    PointDropped(a, b, r);
    ScaledUp(Mantissa(r), Scale(r), m, d);
  }

  /** `r` is `a.b`, or `a` when `b` is empty, where `a` is digits without
      superfluous leading zeros, `b` digits not ending with `0` and no longer
      than `d`, and `a + b` stands for `m / 10^d` at scale `|b|`. */
  predicate CanonicalPartsOf(a: string, b: string, r: string, m: int, d: nat)
  {
    && a != [] && AllDigits(a) && AllDigits(b) && AllDigits(a + b)
    && (a == "0" || a[0] != '0')
    && (b == [] || b[|b| - 1] != '0')
    && |b| <= d
    && r == (if b == [] then a else a + "." + b)
    && m == DigitsValue(a + b) * Power(10, d - |b|)
  }

  lemma ScaledUp(v: int, sc: nat, m: int, d: nat)
    requires sc <= d && m == v * Power(10, d - sc)
    ensures SameNumber(v, sc, m, d)
  {
    SameNumberScaled(v, sc, d - sc);
  }

  /** A numeral with a `.`, canonicalised, is an integer part without
      superfluous leading zeros, a `.` and a fraction without trailing zeros,
      standing for the same digits up to trailing zeros. */
  lemma CanonicalParts(ss: string) returns (a: string, b: string)
    requires IsNumeral(ss) && '.' in ss
    ensures CanonicalPartsOf(a, b, Formatted(ss, None), Mantissa(ss), Scale(ss))
  {
    NumeralParts(ss);
    var i, f := IntPart(ss), FracPart(ss);
    assert Mantissa(ss) == DigitsValue(i + f);
    a, b := PointedParts(i, f);
  }

  /** The same, for the numeral `i.f`. */
  lemma PointedParts(i: string, f: string) returns (a: string, b: string)
    requires i != [] && AllDigits(i) && AllDigits(f)
    ensures CanonicalPartsOf(a, b, Formatted(i + "." + f, None), DigitsValue(i + f), |f|)
  {
    a, b := PointedShape(i, f);
    MantissaWithoutZeros(i, f);
  }

  /** `i.f`, formatted, is `a.b` (or `a`) for `i` without its leading zeros
      and `f` without its trailing zeros. */
  lemma PointedShape(i: string, f: string) returns (a: string, b: string)
    requires i != [] && AllDigits(i) && AllDigits(f)
    ensures a == LeadZero(StripLeadingZeros(i)) && b == StripTrailingZeros(f)
    ensures a == "0" || a[0] != '0'
    ensures b == [] || b[|b| - 1] != '0'
    ensures |b| <= |f|
    ensures Formatted(i + "." + f, None) == if b == [] then a else a + "." + b
  {
    StripLeadingZerosSpec(i);
    StripTrailingZerosSpec(f);
    CanonicalWithPoint(i, f);
    a, b := LeadZero(StripLeadingZeros(i)), StripTrailingZeros(f);
    assert AllDigits(b) by {
      assert b == f[..|b|];
      PrefixOfDigits(f, |b|);
    }
    var s3 := a + "." + b;
    assert TrimToWidth(s3, None) == s3;
    assert s3[|s3| - 1] == '.' <==> b == [];
    if b == [] {
      assert s3[..|s3| - 1] == a;
    }
  }

  /** `i.f`, or `i` when `f` is empty: a numeral whose scale is `|f|`, whose
      mantissa is the digits of `i + f`, whose integer part is `i`. */
  lemma PointDropped(i: string, f: string, r: string)
    requires i != [] && AllDigits(i) && AllDigits(f) && AllDigits(i + f)
    requires f == [] || f[|f| - 1] != '0'
    requires r == if f == [] then i else i + "." + f
    ensures IsNumeral(r) && r[|r| - 1] != '.' && ('.' in r <==> Scale(r) > 0)
    ensures Scale(r) == |f| && Mantissa(r) == DigitsValue(i + f) && IntPart(r) == i
    ensures Scale(r) > 0 ==> Mantissa(r) % 10 != 0
  {
    if f == [] {
      NumeralWithoutPoint(i);
      assert i + f == i;
    } else {
      NumeralWithPoint(i, f);
      assert (i + f)[|i + f| - 1] == f[|f| - 1];
      LastDigit(i + f);
    }
  }

  lemma FormattedNumeralWithoutPoint(ss: string)
    requires IsNumeral(ss) && '.' !in ss
    ensures var r := Formatted(ss, None);
      && IsNumeral(r)
      && '.' !in r
      && r[|r| - 1] != '.'
      && Scale(r) == Scale(ss) == 0
      && Mantissa(r) == Mantissa(ss)
      && (IntPart(r) == "0" || IntPart(r)[0] != '0')
  {
    NumeralParts(ss);
    CanonicalWithoutPoint(ss);
    StripLeadingZerosSpec(ss);
    var s1 := StripLeadingZeros(ss);
    var k := |ss| - |s1|;
    var c := LeadZero(s1);
    assert IsDigit(c[|c| - 1]);
    var r := Formatted(ss, None);
    assert r == c;
    NumeralWithoutPoint(c);
    DigitsValueLeadingZeros(k, s1);
    if s1 == [] {
      DigitsValueOfZeros(1);
      assert c == Repeat('0', 1);
    }
    assert c + [] == c && ss + [] == ss;
  }

  /** Canonicalising a numeral keeps the number it denotes, and the result
      has no superfluous zeros. */
  lemma FormattedNumeral(ss: string)
    requires IsNumeral(ss)
    ensures CanonicalFor(Formatted(ss, None), Mantissa(ss), Scale(ss))
  {
    if '.' in ss {
      FormattedNumeralWithPoint(ss);
    } else {
      FormattedNumeralWithoutPoint(ss);
    }
  }

  /** With a width, truncation happens before a trailing `.` is removed. */
  lemma TruncationBeforePointRemoval()
    ensures Formatted("12.5", Some(3)) == "12"
  {
    assert StripLeadingZeros("12.5") == "12.5";
    assert StripTrailingZeros("12.5") == "12.5";
    assert Canonical("12.5") == "12.5";
    assert Slice("12.5", 0, 3) == "12.";
    assert Slice("12.", -1, 3) == ".";
  }

  /** Whatever the width, a numeral never comes out ending in `.`: it has at
      most one point, so once a trailing point is dropped none is left. */
  lemma FormattedNoTrailingPoint(ss: string, width: Option<int>)
    requires IsNumeral(ss)
    ensures var r := Formatted(ss, width); r == [] || r[|r| - 1] != '.'
  {
    NumeralPoints(ss);
    CanonicalPoints(ss);
    var c := Canonical(ss);
    var t := TrimToWidth(c, width);
    assert t <= c;
    PrefixPointDropped(c, t);
  }

  /** Dropping a trailing point from a prefix of a string with at most one
      point leaves no trailing point. */
  lemma PrefixPointDropped(c: string, t: string)
    requires t <= c && Points(c) <= 1
    ensures var r := DropTrailingPoint(t); r == [] || r[|r| - 1] != '.'
  {
    assert c == t + c[|t|..];
    PointsConcat(t, c[|t|..]);
    if t != [] && t[|t| - 1] == '.' {
      var u := t[..|t| - 1];
      assert t == u + ['.'];
      PointsConcat(u, ['.']);
      assert '.' !in multiset(u);
    }
  }

  /** The number of points in a string. */
  function Points(s: string): nat
  {
    multiset(s)['.']
  }

  lemma PointsConcat(a: string, b: string)
    ensures Points(a + b) == Points(a) + Points(b)
  {
    assert multiset(a + b) == multiset(a) + multiset(b);
  }

  /** A numeral has at most one point. */
  lemma NumeralPoints(ss: string)
    requires IsNumeral(ss)
    ensures Points(ss) <= 1
  {
    var k := IndexOf(ss, '.');
    if k < 0 {
      assert '.' !in multiset(ss);
    } else {
      var a, b := ss[..k], ss[k + 1..];
      assert ss == a + (['.'] + b);
      DigitsHaveNoPoint(a);
      DigitsHaveNoPoint(b);
      PointsConcat(['.'], b);
      PointsConcat(a, ['.'] + b);
    }
  }

  lemma DigitsHaveNoPoint(s: string)
    requires AllDigits(s)
    ensures Points(s) == 0
  {
    assert forall i :: 0 <= i < |s| ==> s[i] != '.';
  }

  /** The canonical edits add no point: they remove zeros and add a `0`. */
  lemma CanonicalPoints(ss: string)
    ensures Points(Canonical(ss)) <= Points(ss)
  {
    var s1 := StripLeadingZeros(ss);
    LeadingZerosHoldNoPoint(ss);
    var s2 := if '.' in s1 then StripTrailingZeros(s1) else s1;
    if '.' in s1 {
      TrailingZerosHoldNoPoint(s1);
    }
    PointsConcat("0", s2);
  }

  lemma LeadingZerosHoldNoPoint(s: string)
    ensures Points(StripLeadingZeros(s)) == Points(s)
  {
    var r := StripLeadingZeros(s);
    StripLeadingZerosSpec(s);
    RepeatHasNoPoint('0', |s| - |r|);
    PointsConcat(Repeat('0', |s| - |r|), r);
  }

  lemma TrailingZerosHoldNoPoint(s: string)
    ensures Points(StripTrailingZeros(s)) == Points(s)
  {
    var r := StripTrailingZeros(s);
    StripTrailingZerosSpec(s);
    RepeatHasNoPoint('0', |s| - |r|);
    PointsConcat(r, Repeat('0', |s| - |r|));
  }

  lemma RepeatHasNoPoint(c: char, n: nat)
    requires c != '.'
    ensures Points(Repeat(c, n)) == 0
  {
    assert '.' !in Repeat(c, n);
  }

  // ---------------------------------------------------------------------------
  // truncateNumeric
  // ---------------------------------------------------------------------------

  /** `truncateNumeric(s, width)`: `s.slice(0, width)` when `s` is longer. */
  function TruncateNumeric(s: string, width: int): (r: string)
    ensures r <= s
    ensures width >= 0 ==> r == s[..if |s| < width then |s| else width]
  {
    if |s| > width then Slice(s, 0, width) else s
  }

  // ---------------------------------------------------------------------------
  // middleEllipsis
  // ---------------------------------------------------------------------------

  /** `Math.ceil(n / 2)` for an integer `n`. Dafny's `/` by a positive divisor
      rounds down, so `(n + 1) / 2` rounds `n / 2` up. */
  function CeilHalf(n: int): (r: int)
    ensures 2 * r - 1 <= n <= 2 * r
  {
    (n + 1) / 2
  }

  /** `middleEllipsis(txt, maxLength = 14, maxLengthBeginning?)`: a text of
      at least `maxLength + 3` characters is cut to its first
      `beginningLength` characters, `"..."` and its last
      `maxLength - beginningLength` characters. `maxLengthBeginning` falls back
      to `ceil(maxLength / 2)` when it is absent, 0 (both falsy for `||`), or
      not below `maxLength`. The console warning is not modelled. */
  method MiddleEllipsis(txt: Option<string>, maxLength: int := 14, maxLengthBeginning: Option<int> := None)
    returns (r: string)
    ensures txt.None? || txt.value == "" ==> r == ""
    ensures txt.Some? && txt.value != "" && |txt.value| < maxLength + 3 ==> r == txt.value
    ensures txt.Some? && |txt.value| >= maxLength + 3 && maxLength >= 0
            && (maxLengthBeginning.None? || maxLengthBeginning.value >= 0) ==>
      var t := txt.value;
      var b := if maxLengthBeginning.Some? && 0 < maxLengthBeginning.value < maxLength
               then maxLengthBeginning.value else CeilHalf(maxLength);
      && 0 <= b <= maxLength
      && |r| == maxLength + 3
      && r == t[..b] + "..." + t[|t| - (maxLength - b)..]
  {
    if txt.None? || txt.value == "" {
      return "";
    }
    var t := txt.value;
    if |t| < maxLength + 3 {
      return t;
    }
    var beginningLength := if maxLengthBeginning.Some? && maxLengthBeginning.value != 0
                           then maxLengthBeginning.value else CeilHalf(maxLength);
    if beginningLength >= maxLength {
      beginningLength := CeilHalf(maxLength);
    }
    var endingLength := maxLength - beginningLength;
    r := Substring(t, 0, beginningLength) + "..." + Substring(t, |t| - endingLength, |t|);
  }
}
