/** `ValuePerToken` of `src/internal/common.ts`: a reward accumulator kept as
    the fraction `sum / amount`, and the reward owed between two snapshots. */
module Rewards {
  import opened Js
  import opened Arith

  datatype ValuePerToken = ValuePerToken(sum: int, amount: int)

  /** `isAmountZero()`: the accumulator that has seen nothing yet. */
  predicate IsAmountZero(v: ValuePerToken)
  {
    v.amount == 0 && v.sum == 0
  }

  /** `diff` reads a zero accumulator as the fraction `0 / 1`. */
  function Normal(v: ValuePerToken): (n: ValuePerToken)
    ensures IsAmountZero(v) ==> n == ValuePerToken(0, 1)
    ensures !IsAmountZero(v) ==> n == v
  {
    if IsAmountZero(v) then ValuePerToken(0, 1) else v
  }

  /** `ValuePerToken.diff(v1, v2, mul)`: `(s1/a1 - s2/a2) * mul` by
      cross-multiplication, `(s1*a2 - s2*a1) * mul / (a1*a2)`, and 0 when the
      difference is negative. A zero `a1*a2` makes the BigInt division throw. */
  function Diff(v1: ValuePerToken, v2: ValuePerToken, mul: int): Result<int>
  {
    var s1, a1 := Normal(v1).sum, Normal(v1).amount;
    var s2, a2 := Normal(v2).sum, Normal(v2).amount;
    var n1 := s1 * a2;
    var n2 := s2 * a1;
    var d := a1 * a2;
    if n1 >= n2 then
      if d == 0 then Err(DivisionByZero) else Ok(TDiv((n1 - n2) * mul, d))
    else Ok(0)
  }

  /** `v2`'s rate is at least `v1`'s, compared by cross-multiplication. */
  predicate RateNotBelow(v2: ValuePerToken, v1: ValuePerToken)
  {
    Normal(v2).sum * Normal(v1).amount >= Normal(v1).sum * Normal(v2).amount
  }

  /** The product of the two denominators `diff` divides by. */
  function Denominator(v1: ValuePerToken, v2: ValuePerToken): int
  {
    Normal(v1).amount * Normal(v2).amount
  }

  /** `diff` throws exactly when the difference is not negative and a
      denominator is zero. */
  lemma DiffFails(v1: ValuePerToken, v2: ValuePerToken, mul: int)
    ensures Diff(v1, v2, mul).Err? <==>
      Normal(v1).sum * Normal(v2).amount >= Normal(v2).sum * Normal(v1).amount
      && Denominator(v1, v2) == 0
    ensures Diff(v1, v2, mul).Err? ==> Diff(v1, v2, mul).error == DivisionByZero
  {
  }

  /** With non-negative amounts and multiplier the reward is never negative. */
  lemma DiffNonNegative(v1: ValuePerToken, v2: ValuePerToken, mul: int)
    requires v1.amount >= 0 && v2.amount >= 0 && mul >= 0
    ensures Diff(v1, v2, mul).Ok? ==> Diff(v1, v2, mul).value >= 0
  {
    var n1 := Normal(v1).sum * Normal(v2).amount;
    var n2 := Normal(v2).sum * Normal(v1).amount;
    var d := Denominator(v1, v2);
    if n1 >= n2 && d != 0 {
      assert d > 0;
      assert (n1 - n2) * mul >= 0;
      TDivMeaning((n1 - n2) * mul, d);
    }
  }

  /** Nothing is owed when `v2`'s rate is at least `v1`'s: a strictly higher
      rate always gives 0, an equal one gives 0 unless the division throws. */
  lemma DiffOfRateNotBelow(v1: ValuePerToken, v2: ValuePerToken, mul: int)
    requires RateNotBelow(v2, v1)
    ensures Denominator(v1, v2) != 0 ==> Diff(v1, v2, mul) == Ok(0)
    ensures Normal(v2).sum * Normal(v1).amount > Normal(v1).sum * Normal(v2).amount ==>
      Diff(v1, v2, mul) == Ok(0)
  {
    var n1 := Normal(v1).sum * Normal(v2).amount;
    var n2 := Normal(v2).sum * Normal(v1).amount;
    var d := Denominator(v1, v2);
    if n1 == n2 && d != 0 {
      assert (n1 - n2) * mul == 0;
      TDivMeaning(0, d);
    }
  }

  /** `diff(v, v, mul)` is 0, except that it throws for a non-zero sum over a
      zero amount. */
  lemma DiffSelf(v: ValuePerToken, mul: int)
    ensures Diff(v, v, mul).Ok? <==> IsAmountZero(v) || v.amount != 0
    ensures Diff(v, v, mul).Ok? ==> Diff(v, v, mul).value == 0
  {
    var n := Normal(v);
    assert n.sum * n.amount == n.sum * n.amount;
    if n.amount != 0 {
      assert Denominator(v, v) == n.amount * n.amount;
      assert n.amount * n.amount > 0;
    }
    DiffOfRateNotBelow(v, v, mul);
  }

  /** A zero accumulator on either side behaves exactly as `0 / 1`. */
  lemma DiffZeroState(v1: ValuePerToken, v2: ValuePerToken, mul: int)
    ensures IsAmountZero(v1) ==> Diff(v1, v2, mul) == Diff(ValuePerToken(0, 1), v2, mul)
    ensures IsAmountZero(v2) ==> Diff(v1, v2, mul) == Diff(v1, ValuePerToken(0, 1), mul)
  {
  }

  /** With positive denominators and a non-negative multiplier the reward is
      the floor of `(s1/a1 - s2/a2) * mul` whenever that is not negative. */
  lemma DiffIsFloor(v1: ValuePerToken, v2: ValuePerToken, mul: int)
    requires Denominator(v1, v2) > 0 && mul >= 0
    requires Normal(v1).sum * Normal(v2).amount >= Normal(v2).sum * Normal(v1).amount
    ensures Diff(v1, v2, mul).Ok?
    ensures var r, d := Diff(v1, v2, mul).value, Denominator(v1, v2);
      var p := (Normal(v1).sum * Normal(v2).amount - Normal(v2).sum * Normal(v1).amount) * mul;
      r * d <= p < (r + 1) * d
  {
    var n1 := Normal(v1).sum * Normal(v2).amount;
    var n2 := Normal(v2).sum * Normal(v1).amount;
    var d := Denominator(v1, v2);
    NonNegativeProduct(n1 - n2, mul);
    var p := (n1 - n2) * mul;
    assert Diff(v1, v2, mul) == Ok(TDiv(p, d));
    QuotientIsFloor(p, d, Diff(v1, v2, mul).value);
  }
}
