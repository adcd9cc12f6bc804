/** `DemicalFormat` of `src/internal/common.ts`: a fixed-point decimal, the
    integer `value` scaled down by `10^demical`. */
module Demical {
  import opened Js
  import opened Utils
  import opened Numerals
  import opened Format

  /** The number `value / 10^demical`. The class never changes its fields after
      construction, so it is a value here. */
  datatype DemicalFormat = DemicalFormat(value: int, demical: nat)

  /** `new DemicalFormat(value, demical)`: a negative number of decimals
      becomes 0. */
  function NewDemicalFormat(value: int, demical: int): (d: DemicalFormat)
    ensures d.value == value
    ensures demical >= 0 ==> d.demical == demical
    ensures demical < 0 ==> d.demical == 0
  {
    DemicalFormat(value, if demical < 0 then 0 else demical)
  }

  // ---------------------------------------------------------------------------
  // toString
  // ---------------------------------------------------------------------------

  /** The digits of `value`, padded on the left by `demical` zeros, with a `.`
      put before the last `demical` of them. */
  function WithPoint(value: int, demical: nat): string
  {
    var vs := Repeat('0', demical) + IntToString(value);
    Slice(vs, 0, -(demical as int)) + "." + Slice(vs, -(demical as int), |vs|)
  }

  /** The `fixed` branch of `toString`: a `.` is appended when there is none,
      then zeros until there are `demical` digits after the `.`. */
  function Padded(vs: string, demical: nat): string
  {
    var vs := if IndexOf(vs, '.') == -1 then vs + "." else vs;
    var currentDemical := |vs| - 1 - IndexOf(vs, '.');
    var appendDemical := if demical - currentDemical < 0 then 0 else demical - currentDemical;
    vs + Repeat('0', appendDemical)
  }

  /** What `d.toString(fixed)` returns. */
  function Rendered(d: DemicalFormat, fixed: bool): string
  {
    if d.demical <= 0 then Formatted(IntToString(d.value), None)
    else
      var vs := Formatted(WithPoint(d.value, d.demical), None);
      if fixed && d.demical > 0 then Padded(vs, d.demical) else vs
  }

  /** `d.toString(fixed)`, statement by statement (`fixed` defaults to false). */
  method ToString(d: DemicalFormat, fixed: bool := false) returns (vs: string)
    ensures vs == Rendered(d, fixed)
  {
    if d.demical <= 0 {
      vs := FormatNumeric(IntToString(d.value));
      return;
    }
    vs := Repeat('0', d.demical) + IntToString(d.value);
    vs := Slice(vs, 0, -(d.demical as int)) + "." + Slice(vs, -(d.demical as int), |vs|);
    assert vs == WithPoint(d.value, d.demical);
    vs := FormatNumeric(vs);
    ghost var formatted := vs;
    if fixed && d.demical > 0 {
      if IndexOf(vs, '.') == -1 {
        vs := vs + ".";
      }
      var currentDemical := |vs| - 1 - IndexOf(vs, '.');
      var appendDemical := d.demical - currentDemical;
      if appendDemical < 0 {
        appendDemical := 0;
      }
      vs := vs + Repeat('0', appendDemical);
      assert vs == Padded(formatted, d.demical);
    }
  }

  /** The padded digits `WithPoint` cuts in two: they denote `value`. */
  lemma WithPointParts(value: nat, demical: nat) returns (vs: string)
    requires demical > 0
    ensures |vs| > demical
    ensures AllDigits(vs) && DigitsValue(vs) == value
    ensures WithPoint(value, demical) == vs[..|vs| - demical] + "." + vs[|vs| - demical..]
  {
    var ns := NatToString(value);
    vs := Repeat('0', demical) + ns;
    assert IntToString(value) == ns;
    DigitsValueLeadingZeros(demical, ns);
    SliceAroundLast(vs, demical);
  }

  /** Cutting the last `k` characters off with `slice`'s negative index. */
  lemma SliceAroundLast(vs: string, k: nat)
    requires 0 < k < |vs|
    ensures Slice(vs, 0, -(k as int)) == vs[..|vs| - k]
    ensures Slice(vs, -(k as int), |vs|) == vs[|vs| - k..]
  {
    assert SliceIndex(-(k as int), |vs|) == |vs| - k;
  }

  /** For a non-negative value, the string before formatting is a numeral for
      exactly `value / 10^demical`. */
  lemma WithPointNumeral(value: nat, demical: nat)
    requires demical > 0
    ensures var p := WithPoint(value, demical);
      IsNumeral(p) && '.' in p && Mantissa(p) == value && Scale(p) == demical
  {
    var vs := WithPointParts(value, demical);
    PointedDigits(vs, |vs| - demical, WithPoint(value, demical));
  }

  /** A `.` put inside a digit string makes a numeral for the same digits. */
  lemma PointedDigits(vs: string, n: nat, p: string)
    requires AllDigits(vs) && 0 < n <= |vs|
    requires p == vs[..n] + "." + vs[n..]
    ensures IsNumeral(p) && '.' in p && Mantissa(p) == DigitsValue(vs) && Scale(p) == |vs| - n
  {
    var i, f := vs[..n], vs[n..];
    assert i + f == vs;
    PrefixOfDigits(vs, n);
    SuffixOfDigits(vs, n);
    NumeralWithPoint(i, f);
    assert IntPart(p) + FracPart(p) == vs;
  }

  /** Padding a canonical numeral to `demical` fraction digits: the integer part
      stays, the fraction is extended by zeros. */
  lemma PaddedNumeral(r: string, demical: nat)
    requires IsNumeral(r) && r[|r| - 1] != '.' && ('.' in r <==> Scale(r) > 0)
    requires Scale(r) <= demical
    ensures var p := Padded(r, demical);
      && p == IntPart(r) + "." + FracPart(r) + Repeat('0', demical - Scale(r))
      && IsNumeral(p)
      && IntPart(p) == IntPart(r)
      && Scale(p) == demical
      && Mantissa(p) == Mantissa(r) * Power(10, demical - Scale(r))
  {
    NumeralParts(r);
    var i, f, k := IntPart(r), FracPart(r), demical - Scale(r);
    var m := Mantissa(r);
    assert m == DigitsValue(i + f);
    PaddedShape(r, demical);
    ExtendedFraction(i, f, k);
    var p := i + "." + f + Repeat('0', k);
    assert Padded(r, demical) == p;
    assert Mantissa(p) == m * Power(10, k);
  }

  lemma PaddedShape(r: string, demical: nat)
    requires IsNumeral(r) && Scale(r) <= demical
    ensures Padded(r, demical) == IntPart(r) + "." + FracPart(r) + Repeat('0', demical - Scale(r))
  {
    NumeralParts(r);
    var i, f := IntPart(r), FracPart(r);
    var q := i + "." + f;
    if '.' in r {
      assert r == q;
    } else {
      assert r + "." == q;
    }
    IndexOfConcat(i, '.', f);
  }

  /** Zeros appended to the fraction of `i.f` scale its mantissa. */
  lemma ExtendedFraction(i: string, f: string, k: nat)
    requires i != [] && AllDigits(i) && AllDigits(f)
    ensures AllDigits(i + f)
    ensures var p := i + "." + f + Repeat('0', k);
      && IsNumeral(p) && IntPart(p) == i && Scale(p) == |f| + k
      && Mantissa(p) == DigitsValue(i + f) * Power(10, k)
  {
    var z := Repeat('0', k);
    DigitsValueOfZeros(k);
    AllDigitsConcat(i, f);
    AllDigitsConcat(f, z);
    assert i + "." + f + z == i + "." + (f + z);
    NumeralWithPoint(i, f + z);
    assert i + (f + z) == (i + f) + z;
    DigitsValueTrailingZeros(i + f, k);
  }

  /** Two canonical scaled integers (no trailing zero digit unless there are no
      decimals) that denote the same number are the same. */
  lemma CanonicalUnique(v1: nat, d1: nat, v2: nat, d2: nat)
    requires SameNumber(v1, d1, v2, d2)
    requires d1 == 0 || v1 % 10 != 0
    requires d2 == 0 || v2 % 10 != 0
    ensures v1 == v2 && d1 == d2
  {
    if d1 < d2 {
      ScaledByPowerOfTen(v1, d1, v2, d2);
    } else if d2 < d1 {
      ScaledByPowerOfTen(v2, d2, v1, d1);
    } else {
      MultiplicationCancels(v1, v2, Power(10, d1));
    }
  }

  lemma ScaledByPowerOfTen(v1: nat, d1: nat, v2: nat, d2: nat)
    requires SameNumber(v1, d1, v2, d2) && d1 < d2
    ensures v2 % 10 == 0
  {
    var p, t, q := Power(10, d1), Power(10, d2 - d1), Power(10, d2 - d1 - 1);
    assert Power(10, d2) == p * t by { PowerAdd(10, d1, d2 - d1); }
    assert v1 * (p * t) == v2 * p;
    Rearrange(v1, t, p);
    MultiplicationCancels(v1 * t, v2, p);
    assert t == 10 * q;
    assert v2 == (v1 * q) * 10;
  }

  /** For a non-negative value, `toString` renders a numeral for the same
      number, with no leading zero beyond a lone `0` before the point; with
      `fixed` it shows exactly `demical` digits after the point, and the digits
      are those of `value`. */
  lemma RenderedNumeral(d: DemicalFormat, fixed: bool)
    requires d.value >= 0
    ensures var r := Rendered(d, fixed);
      && IsNumeral(r)
      && SameNumber(Mantissa(r), Scale(r), d.value, d.demical)
      && (IntPart(r) == "0" || IntPart(r)[0] != '0')
      && (fixed && d.demical > 0 ==> Scale(r) == d.demical && Mantissa(r) == d.value)
      && (!fixed || d.demical == 0 ==> Scale(r) <= d.demical && (Scale(r) > 0 ==> Mantissa(r) % 10 != 0))
  {
    if d.demical == 0 {
      RenderedIntegral(d, fixed);
    } else if fixed {
      RenderedFixed(d);
    } else {
      RenderedFractional(d);
    }
  }

  lemma RenderedIntegral(d: DemicalFormat, fixed: bool)
    requires d.value >= 0 && d.demical == 0
    ensures var r := Rendered(d, fixed);
      && IsNumeral(r) && Scale(r) == 0 && Mantissa(r) == d.value
      && (IntPart(r) == "0" || IntPart(r)[0] != '0')
  {
    var s := NatToString(d.value);
    assert Rendered(d, fixed) == Formatted(s, None);
    NumeralWithoutPoint(s);
    FormattedNumeralWithoutPoint(s);
    assert IntPart(s) + FracPart(s) == s;
  }

  lemma RenderedFractional(d: DemicalFormat)
    requires d.value >= 0 && d.demical > 0
    ensures var r := Rendered(d, false);
      && IsNumeral(r)
      && r[|r| - 1] != '.' && ('.' in r <==> Scale(r) > 0)
      && SameNumber(Mantissa(r), Scale(r), d.value, d.demical)
      && Scale(r) <= d.demical && (Scale(r) > 0 ==> Mantissa(r) % 10 != 0)
      && (IntPart(r) == "0" || IntPart(r)[0] != '0')
  {
    WithPointNumeral(d.value, d.demical);
    FormattedNumeral(WithPoint(d.value, d.demical));
  }

  lemma RenderedFixed(d: DemicalFormat)
    requires d.value >= 0 && d.demical > 0
    ensures var r := Rendered(d, true);
      && IsNumeral(r) && Scale(r) == d.demical && Mantissa(r) == d.value
      && (IntPart(r) == "0" || IntPart(r)[0] != '0')
  {
    RenderedFractional(d);
    PaddedToValue(Rendered(d, false), Rendered(d, true), d.value, d.demical);
  }

  /** The `fixed` branch on a canonical numeral for `v / 10^dd`: the padded
      string shows `dd` decimals whose digits are those of `v`. */
  lemma PaddedToValue(r: string, q: string, v: int, dd: nat)
    requires q == Padded(r, dd)
    requires IsNumeral(r) && r[|r| - 1] != '.' && ('.' in r <==> Scale(r) > 0)
    requires Scale(r) <= dd && SameNumber(Mantissa(r), Scale(r), v, dd)
    requires IntPart(r) == "0" || IntPart(r)[0] != '0'
    ensures IsNumeral(q) && Scale(q) == dd && Mantissa(q) == v
    ensures IntPart(q) == "0" || IntPart(q)[0] != '0'
  {
    PaddedValue(Mantissa(r), Scale(r), dd, v);
    PaddedDigits(r, q, v, dd);
  }

  /** The same, for a numeral whose mantissa, scaled to `dd` decimals, is `v`. */
  lemma PaddedDigits(r: string, q: string, v: int, dd: nat)
    requires q == Padded(r, dd)
    requires IsNumeral(r) && r[|r| - 1] != '.' && ('.' in r <==> Scale(r) > 0)
    requires Scale(r) <= dd && Mantissa(r) * Power(10, dd - Scale(r)) == v
    requires IntPart(r) == "0" || IntPart(r)[0] != '0'
    ensures IsNumeral(q) && Scale(q) == dd && Mantissa(q) == v
    ensures IntPart(q) == "0" || IntPart(q)[0] != '0'
  {
    PaddedNumeral(r, dd);
  }

  /** Padding `m / 10^sc` with zeros to `dd` decimals gives `v` itself when
      `m / 10^sc` and `v / 10^dd` are the same number. */
  lemma PaddedValue(m: int, sc: nat, dd: nat, v: int)
    requires sc <= dd && SameNumber(m, sc, v, dd)
    ensures m * Power(10, dd - sc) == v
  {
    var j := dd - sc;
    SameNumberScaled(m, sc, j);
    SameNumberTransitive(m * Power(10, j), sc + j, m, sc, v, dd);
    MultiplicationCancels(m * Power(10, j), v, Power(10, dd));
  }

  // ---------------------------------------------------------------------------
  // fromString
  // ---------------------------------------------------------------------------

  /** `s` starts with two zeros, which `fromString` refuses. */
  predicate DoubleZeroPrefix(s: string)
  {
    |s| >= 2 && s[0] == '0' && s[1] == '0'
  }

  /** What `DemicalFormat.fromString(s)` returns (`null` is `None`). */
  function Parsed(s_: string): Option<DemicalFormat>
  {
    if !IsNumeral(s_) || DoubleZeroPrefix(s_) then None
    else FromFormatted(Formatted(s_, None))
  }

  /** The part of `fromString` after `formatNumeric`: the decimals are counted
      after the `.`, and the digits without the `.` are parsed. */
  function FromFormatted(s: string): Option<DemicalFormat>
  {
    var demical := |s| - 1 - IndexOf(s, '.');
    var demical := if demical >= |s| then 0 else demical;
    var value := ParseBigInt(RemoveFirst(s, '.'));
    if value.None? then None else Some(NewDemicalFormat(value.value, demical))
  }

  /** `DemicalFormat.fromString(s)`, statement by statement. */
  method FromString(s_: string) returns (r: Option<DemicalFormat>)
    ensures r == Parsed(s_)
  {
    if !IsNumeral(s_) {
      return None;
    }
    if DoubleZeroPrefix(s_) {
      return None;
    }
    var s := FormatNumeric(s_);
    var demical := |s| - 1 - IndexOf(s, '.');
    if demical >= |s| {
      demical := 0;
    }
    var value := ParseBigInt(RemoveFirst(s, '.'));
    if value.None? {
      return None;
    }
    return Some(NewDemicalFormat(value.value, demical));
  }

  /** On a canonical numeral, the number of decimals is the fraction's length
      and the value is the digits with the point taken out. */
  lemma ParsedParts(s: string)
    requires IsNumeral(s)
    ensures FromFormatted(s) == Some(DemicalFormat(Mantissa(s), Scale(s)))
  {
    NumeralParts(s);
    var i, f := IntPart(s), FracPart(s);
    if '.' in s {
      FromFormattedWithPoint(i, f);
    } else {
      FromFormattedWithoutPoint(s);
      assert i + f == s;
    }
  }

  lemma FromFormattedWithPoint(i: string, f: string)
    requires AllDigits(i) && AllDigits(f)
    ensures AllDigits(i + f)
    ensures FromFormatted(i + "." + f) == Some(DemicalFormat(DigitsValue(i + f), |f|))
  {
    AllDigitsConcat(i, f);
    var s := i + "." + f;
    assert '.' !in i;
    IndexOfConcat(i, '.', f);
    assert s[..|i|] == i && s[|i| + 1..] == f;
  }

  lemma FromFormattedWithoutPoint(i: string)
    requires AllDigits(i)
    ensures FromFormatted(i) == Some(DemicalFormat(DigitsValue(i), 0))
  {
    assert '.' !in i;
  }

  /** `fromString` accepts exactly the numerals that do not start with `00`,
      and the result denotes the same number in canonical form: no trailing
      zero digit unless there are no decimals, and no more decimals than the
      input shows. */
  lemma ParsedMeaning(s: string)
    ensures Parsed(s).Some? <==> IsNumeral(s) && !DoubleZeroPrefix(s)
    ensures Parsed(s).Some? ==>
      var d := Parsed(s).value;
      && d.value >= 0
      && SameNumber(d.value, d.demical, Mantissa(s), Scale(s))
      && d.demical <= Scale(s)
      && (d.demical == 0 || d.value % 10 != 0)
  {
    if IsNumeral(s) && !DoubleZeroPrefix(s) {
      FormattedNumeral(s);
      var r := Formatted(s, None);
      ParsedParts(r);
    }
  }

  /** Two accepted numerals for the same number parse to the same value. */
  lemma ParsedRespectsNumber(s1: string, s2: string)
    requires Parsed(s1).Some? && Parsed(s2).Some?
    requires SameNumber(Mantissa(s1), Scale(s1), Mantissa(s2), Scale(s2))
    ensures Parsed(s1) == Parsed(s2)
  {
    ParsedMeaning(s1);
    ParsedMeaning(s2);
    var d1, d2 := Parsed(s1).value, Parsed(s2).value;
    SameNumberTransitive(d1.value, d1.demical, Mantissa(s1), Scale(s1), Mantissa(s2), Scale(s2));
    SameNumberTransitive(d1.value, d1.demical, Mantissa(s2), Scale(s2), d2.value, d2.demical);
    CanonicalUnique(d1.value, d1.demical, d2.value, d2.demical);
  }

  /** Rendering and parsing back gives the same number; a canonical value comes
      back exactly. */
  lemma RenderedThenParsed(d: DemicalFormat, fixed: bool)
    requires d.value >= 0
    ensures Parsed(Rendered(d, fixed)).Some?
    ensures var e := Parsed(Rendered(d, fixed)).value;
      SameNumber(e.value, e.demical, d.value, d.demical)
    ensures d.demical == 0 || d.value % 10 != 0 ==> Parsed(Rendered(d, fixed)) == Some(d)
  {
    var r := Rendered(d, fixed);
    RenderedNumeral(d, fixed);
    assert !DoubleZeroPrefix(r) by {
      NumeralParts(r);
      if IntPart(r) == "0" && |r| >= 2 {
        assert '.' in r;
        assert r == "0" + "." + FracPart(r);
      } else if |r| >= 2 {
        assert r[0] == IntPart(r)[0];
      }
    }
    ParsedMeaning(r);
    var e := Parsed(r).value;
    SameNumberTransitive(e.value, e.demical, Mantissa(r), Scale(r), d.value, d.demical);
    if d.demical == 0 || d.value % 10 != 0 {
      CanonicalUnique(e.value, e.demical, d.value, d.demical);
    }
  }

  // ---------------------------------------------------------------------------
  // canAlignTo / alignTo
  // ---------------------------------------------------------------------------

  /** The argument of `canAlignTo` and `alignTo`: a number of decimals, or a
      `DemicalFormat` whose decimals are used. */
  datatype AlignTarget = Places(places: int) | Format(format: DemicalFormat)

  function TargetDemical(r: AlignTarget): int
  {
    match r
    case Places(n) => n
    case Format(f) => f.demical
  }

  /** `d.canAlignTo(r)`. */
  predicate CanAlignTo(d: DemicalFormat, r: AlignTarget)
  {
    d.demical <= TargetDemical(r)
  }

  /** `d.alignTo(r)`: `bigintPow` builds `Array(rDemical - demical)`, which
      throws a RangeError when the difference is negative. */
  function AlignTo(d: DemicalFormat, r: AlignTarget): (e: Result<DemicalFormat>)
    ensures e.Ok? <==> CanAlignTo(d, r)
    ensures e.Err? ==> e.error == RangeError
    ensures e.Ok? ==>
      e.value.demical == TargetDemical(r) && SameNumber(e.value.value, e.value.demical, d.value, d.demical)
  {
    var rDemical := TargetDemical(r);
    if rDemical - d.demical < 0 then Err(RangeError)
    else
      var mul := BigintPow(10, rDemical - d.demical);
      SameNumberScaled(d.value, d.demical, rDemical - d.demical);
      Ok(NewDemicalFormat(d.value * mul, rDemical))
  }
}
