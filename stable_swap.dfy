/** `StableSwapHelper` of `src/internal/utils.ts`: the Newton iterations of the
    two-coin stable-swap curve, for the invariant `D` and for the reserve left
    after a trade. */
module StableSwapHelper {
  import opened Js
  import opened Utils
  import opened Arith

  /** The fixed iteration budget of both loops. */
  const Iterations: nat := 256

  /** The stopping rule: successive iterates differ by -1, 0 or 1. */
  predicate Converged(prev: int, next: int)
  {
    next - prev == 1 || next - prev == -1 || next - prev == 0
  }

  // ---------------------------------------------------------------------------
  // The shape of both loops
  // ---------------------------------------------------------------------------

  /** A loop of at most `n` steps from `v` that stops after the first step
      meeting the stopping rule, or at the first failing step. */
  function NewtonLoop(step: int -> Result<int>, v: int, n: nat): Result<int>
    decreases n
  {
    if n == 0 then Ok(v)
    else
      match step(v)
      case Err(e) => Err(e)
      case Ok(next) => if Converged(v, next) then Ok(next) else NewtonLoop(step, next, n - 1)
  }

  /** The first step of a loop with steps left: a failing step ends it, a
      step that meets the stopping rule is its result, any other step goes on
      with one step fewer. */
  lemma LoopOnce(step: int -> Result<int>, v: int, n: nat)
    requires n > 0
    ensures step(v).Err? ==> NewtonLoop(step, v, n) == Err(step(v).error)
    ensures step(v).Ok? && Converged(v, step(v).value) ==> NewtonLoop(step, v, n) == step(v)
    ensures step(v).Ok? && !Converged(v, step(v).value) ==>
      NewtonLoop(step, v, n) == NewtonLoop(step, step(v).value, n - 1)
  {
  }

  /** `k` steps from `v` with no stopping rule: the `k`-th iterate. */
  function Iterate(step: int -> Result<int>, v: int, k: nat): Result<int>
  {
    if k == 0 then Ok(v)
    else
      match Iterate(step, v, k - 1)
      case Err(e) => Err(e)
      case Ok(w) => step(w)
  }

  /** Step `j + 1` succeeds and does not meet the stopping rule. */
  predicate GoesOn(step: int -> Result<int>, v: int, j: nat)
  {
    && Iterate(step, v, j).Ok?
    && Iterate(step, v, j + 1).Ok?
    && !Converged(Iterate(step, v, j).value, Iterate(step, v, j + 1).value)
  }

  /** Taking the first step, then `k` more. */
  lemma {:induction false} IterateAfterFirst(step: int -> Result<int>, v: int, k: nat)
    requires step(v).Ok?
    ensures Iterate(step, v, k + 1) == Iterate(step, step(v).value, k)
  {
    if k > 0 {
      IterateAfterFirst(step, v, k - 1);
    }
  }

  /** The loop returns the first iterate that meets the stopping rule. */
  lemma {:induction false} NewtonLoopStopsAtFirstConvergence(step: int -> Result<int>, v: int, n: nat, k: nat)
    requires k < n
    requires forall j :: 0 <= j < k ==> GoesOn(step, v, j)
    requires Iterate(step, v, k).Ok? && Iterate(step, v, k + 1).Ok?
    requires Converged(Iterate(step, v, k).value, Iterate(step, v, k + 1).value)
    ensures NewtonLoop(step, v, n) == Iterate(step, v, k + 1)
    decreases k
  {
    assert Iterate(step, v, 1) == step(v);
    if k > 0 {
      assert GoesOn(step, v, 0);
      var w := step(v).value;
      forall j | 0 <= j < k - 1 ensures GoesOn(step, w, j) {
        assert GoesOn(step, v, j + 1);
        IterateAfterFirst(step, v, j);
        IterateAfterFirst(step, v, j + 1);
      }
      IterateAfterFirst(step, v, k - 1);
      IterateAfterFirst(step, v, k);
      NewtonLoopStopsAtFirstConvergence(step, w, n - 1, k - 1);
    }
  }

  /** When no step meets the stopping rule, the loop runs its whole budget. */
  lemma {:induction false} NewtonLoopExhausted(step: int -> Result<int>, v: int, n: nat)
    requires forall j :: 0 <= j < n ==> GoesOn(step, v, j)
    ensures NewtonLoop(step, v, n) == Iterate(step, v, n)
    decreases n
  {
    if n > 0 {
      assert GoesOn(step, v, 0);
      assert Iterate(step, v, 1) == step(v);
      var w := step(v).value;
      forall j | 0 <= j < n - 1 ensures GoesOn(step, w, j) {
        assert GoesOn(step, v, j + 1);
        IterateAfterFirst(step, v, j);
        IterateAfterFirst(step, v, j + 1);
      }
      IterateAfterFirst(step, v, n - 1);
      NewtonLoopExhausted(step, w, n - 1);
    }
  }

  // ---------------------------------------------------------------------------
  // compuateDNext / computeD
  // ---------------------------------------------------------------------------

  /** `compuateDNext(dInit, dProd, sumX, A)`: one Newton update of `D`. The
      division throws when the denominator is 0. */
  function ComputeDNext(dInit: int, dProd: int, sumX: int, A: int): (r: Result<int>)
    ensures r.Err? <==> dInit * (2 * A - 1) + 3 * dProd == 0
    ensures r.Err? ==> r.error == DivisionByZero
    ensures dInit > 0 && dProd >= 0 && sumX >= 0 && A >= 1 ==> r.Ok? && r.value >= 0
  {
    var leverage := sumX * 2 * A;
    var numerator := dInit * (2 * dProd + leverage);
    var denominator := dInit * (2 * A - 1) + 3 * dProd;
    if denominator == 0 then Err(DivisionByZero)
    else
      DNextNonNegative(dInit, dProd, sumX, A);
      Ok(TDiv(numerator, denominator))
  }

  /** For a positive `d`, a non-negative product term, reserves and an
      amplification of at least 1, the Newton update is not negative. */
  lemma DNextNonNegative(dInit: int, dProd: int, sumX: int, A: int)
    ensures var den := dInit * (2 * A - 1) + 3 * dProd;
      dInit > 0 && dProd >= 0 && sumX >= 0 && A >= 1 ==>
        den > 0 && TDiv(dInit * (2 * dProd + sumX * 2 * A), den) >= 0
  {
    if dInit > 0 && dProd >= 0 && sumX >= 0 && A >= 1 {
      var leverage := sumX * 2 * A;
      NonNegativeProduct(sumX * 2, A);
      NonNegativeProduct(dInit, 2 * dProd + leverage);
      PositiveProduct(dInit, 2 * A - 1);
      var den := dInit * (2 * A - 1) + 3 * dProd;
      QuotientIsFloor(dInit * (2 * dProd + leverage), den, TDiv(dInit * (2 * dProd + leverage), den));
    }
  }

  /** One pass of the `computeD` loop body from `d`: `dProd = d`, then
      `dProd*d/(2b)`, then `dProd*d/(2q)`, then the Newton update with
      `sumX = b + q`. */
  function DStep(b: int, q: int, A: int, d: int): Result<int>
  {
    if 2 * b == 0 then Err(DivisionByZero)
    else
      var dProd := TDiv(d * d, 2 * b);
      if 2 * q == 0 then Err(DivisionByZero)
      else
        var dProd := TDiv(dProd * d, 2 * q);
        ComputeDNext(d, dProd, b + q, A)
  }

  function DStepOf(b: int, q: int, A: int): int -> Result<int>
  {
    d => DStep(b, q, A, d)
  }

  /** What `computeD(b, q, A)` returns (a thrown division is `Err`). */
  function ComputeDSpec(b: int, q: int, A: int): Result<int>
  {
    if b + q == 0 then Ok(0) else NewtonLoop(DStepOf(b, q, A), b + q, Iterations)
  }

  /** `computeD(b, q, A)`: returns 0 for an empty pool, otherwise iterates from
      `b + q` for at most 256 updates, stopping at the first that moves `d` by
      at most 1. */
  method ComputeD(b: int, q: int, A: int) returns (r: Result<int>)
    ensures r == ComputeDSpec(b, q, A)
    ensures b + q == 0 ==> r == Ok(0)
    ensures b + q != 0 && (b == 0 || q == 0) ==> r == Err(DivisionByZero)
  {
    if b + q == 0 {
      return Ok(0);
    }
    var d := b + q;
    for i := 0 to Iterations
      invariant NewtonLoop(DStepOf(b, q, A), b + q, Iterations)
             == NewtonLoop(DStepOf(b, q, A), d, Iterations - i)
      invariant i == 0 ==> d == b + q
    {
      LoopOnce(DStepOf(b, q, A), d, Iterations - i);
      var dPrev := d;
      var next := DPass(b, q, A, d);
      assert DStepOf(b, q, A)(dPrev) == next;
      if next.Err? {
        return Err(next.error);
      }
      d := next.value;
      var diff := d - dPrev;
      if diff == 1 || diff == -1 || diff == 0 {
        break;
      }
    }
    return Ok(d);
  }

  /** The body of the `computeD` loop from `d`, up to the new `d`; a division
      by zero throws. */
  method DPass(b: int, q: int, A: int, d: int) returns (next: Result<int>)
    ensures next == DStep(b, q, A, d)
    ensures b == 0 || q == 0 ==> next == Err(DivisionByZero)
  {
    var dProd := d;
    if 2 * b == 0 {
      return Err(DivisionByZero);
    }
    dProd := TDiv(dProd * d, 2 * b);
    if 2 * q == 0 {
      return Err(DivisionByZero);
    }
    dProd := TDiv(dProd * d, 2 * q);
    next := ComputeDNext(d, dProd, b + q, A);
  }

  /** On a balanced pool the first update leaves `d = 2b` unchanged, so
      `computeD(b, b, A)` is `2b`: the sum of the reserves. */
  lemma BalancedPoolD(b: int, A: int)
    requires b > 0 && A >= 1
    ensures ComputeDSpec(b, b, A) == Ok(2 * b)
  {
    var d := 2 * b;
    assert d * d == (2 * b) * (2 * b);
    DivideProduct(2 * b, 2 * b);
    assert TDiv(d * d, 2 * b) == d;
    var den := d * (2 * A - 1) + 3 * d;
    assert den == 4 * b * A + 4 * b;
    assert d * (2 * d + d * 2 * A) == d * den;
    DivideProduct(d, den);
    assert DStep(b, b, A, d) == Ok(d);
    assert DStepOf(b, b, A)(d) == Ok(d);
  }

  // ---------------------------------------------------------------------------
  // computeY
  // ---------------------------------------------------------------------------

  /** One pass of the `computeY` loop body: `y' := (y'^2 + c) / (2y' + b - d)`. */
  function YStep(c: int, b: int, d: int, yy: int): Result<int>
  {
    var yn := yy * yy + c;
    var yd := 2 * yy + b - d;
    if yd == 0 then Err(DivisionByZero) else Ok(TDiv(yn, yd))
  }

  function YStepOf(c: int, b: int, d: int): int -> Result<int>
  {
    yy => YStep(c, b, d, yy)
  }

  /** `(d*d) / (2*(x+dx))` inside the `try`: a zero divisor is caught and `c`
      keeps its initial 0. */
  function FirstC(d: int, x: int, dx: int): int
  {
    if 2 * (x + dx) == 0 then 0 else TDiv(d * d, 2 * (x + dx))
  }

  /** What `computeY(dx, x, y, A)` returns (a thrown division is `Err`). */
  function ComputeYSpec(dx: int, x: int, y: int, A: int): Result<int>
  {
    match ComputeDSpec(x, y, A)
    case Err(e) => Err(e)
    case Ok(d) => YFromD(d, dx, x, y, A)
  }

  /** The part of `computeY` after `d` is known. */
  function YFromD(d: int, dx: int, x: int, y: int, A: int): Result<int>
  {
    if 4 * A == 0 then Err(DivisionByZero)
    else YSolve(TDiv(FirstC(d, x, dx) * d, 4 * A), TDiv(d, 2 * A) + (x + dx), d, y)
  }

  /** The loop of `computeY` from `y' = d`, and the answer `y - y' - 1`. */
  function YSolve(c: int, b: int, d: int, y: int): Result<int>
  {
    match NewtonLoop(YStepOf(c, b, d), d, Iterations)
    case Err(e) => Err(e)
    case Ok(yy) => Ok(y - yy - 1)
  }

  lemma ComputeYFromD(dx: int, x: int, y: int, A: int, d: int)
    requires ComputeDSpec(x, y, A) == Ok(d)
    ensures ComputeYSpec(dx, x, y, A) == YFromD(d, dx, x, y, A)
  {
  }

  lemma YFromDSteps(d: int, dx: int, x: int, y: int, A: int, c: int, b: int)
    requires 4 * A != 0
    requires c == TDiv(FirstC(d, x, dx) * d, 4 * A) && b == TDiv(d, 2 * A) + (x + dx)
    ensures YFromD(d, dx, x, y, A) == YSolve(c, b, d, y)
  {
  }

  /** `computeY(dx, x, y, A)`: `d = computeD(x, y, A)`, then `y'` iterated from
      `d` for at most 256 steps with the same stopping rule; returns
      `y - y' - 1`. The console output in the `catch` is not modelled. */
  method ComputeY(dx: int, x: int, y: int, A: int) returns (r: Result<int>)
    ensures r == ComputeYSpec(dx, x, y, A)
    ensures A == 0 ==> r.Err?
  {
    var dr := ComputeD(x, y, A);
    if dr.Err? {
      return Err(dr.error);
    }
    ComputeYFromD(dx, x, y, A, dr.value);
    r := SolveY(dr.value, dx, x, y, A);
  }

  /** The part of `computeY` after `d` is known: the two coefficients `c` and
      `b`, then the loop. */
  method SolveY(d: int, dx: int, x: int, y: int, A: int) returns (r: Result<int>)
    ensures r == YFromD(d, dx, x, y, A)
    ensures A == 0 ==> r.Err?
  {
    var c := 0;
    if 2 * (x + dx) != 0 {
      c := TDiv(d * d, 2 * (x + dx));
    }
    assert c == FirstC(d, x, dx);
    if 4 * A == 0 {
      return Err(DivisionByZero);
    }
    c := TDiv(c * d, 4 * A);
    var b := TDiv(d, 2 * A) + (x + dx);
    YFromDSteps(d, dx, x, y, A, c, b);
    var yy := IterateY(c, b, d);
    YSolveOf(c, b, d, y, yy);
    if yy.Err? {
      return Err(yy.error);
    }
    return Ok(y - yy.value - 1);
  }

  lemma YSolveOf(c: int, b: int, d: int, y: int, yy: Result<int>)
    requires yy == NewtonLoop(YStepOf(c, b, d), d, Iterations)
    ensures YSolve(c, b, d, y) == if yy.Err? then Err(yy.error) else Ok(y - yy.value - 1)
  {
  }

  /** The `for` loop of `computeY`: from `y' = d`, at most 256 updates, leaving
      the loop at the first that moves `y'` by at most 1. */
  method IterateY(c: int, b: int, d: int) returns (r: Result<int>)
    ensures r == NewtonLoop(YStepOf(c, b, d), d, Iterations)
  {
    var yy := d;
    for i := 0 to Iterations
      invariant NewtonLoop(YStepOf(c, b, d), d, Iterations)
             == NewtonLoop(YStepOf(c, b, d), yy, Iterations - i)
    {
      LoopOnce(YStepOf(c, b, d), yy, Iterations - i);
      var yPrev := yy;
      var yn := yy * yy + c;
      var yd := 2 * yy + b - d;
      if yd == 0 {
        return Err(DivisionByZero);
      }
      yy := TDiv(yn, yd);
      assert YStepOf(c, b, d)(yPrev) == Ok(yy);
      var diff := yy - yPrev;
      if diff == 1 || diff == -1 || diff == 0 {
        break;
      }
    }
    return Ok(yy);
  }

  /** With a zero amplification `computeY` throws whatever the amounts: if
      `computeD` does not throw first, the division by `4 * A` does. */
  lemma ComputeYNeedsAmplification(dx: int, x: int, y: int)
    ensures ComputeYSpec(dx, x, y, 0).Err?
  {
  }

  /** A zero `x + dx` does not make `computeY` fail on its own: the caught
      division leaves `c = 0`, so `c` is 0 after both divisions. */
  lemma ComputeYCaughtDivision(dx: int, x: int, d: int, A: int)
    requires x + dx == 0 && A != 0
    ensures TDiv(FirstC(d, x, dx) * d, 4 * A) == 0
  {
    assert FirstC(d, x, dx) * d == 0;
    assert Abs(0) == 0 && 0 / Abs(4 * A) == 0;
  }

  // ---------------------------------------------------------------------------
  // computeYDecimal
  // ---------------------------------------------------------------------------

  /** `computeYDecimal(dx, x, y, A, xd, yd)`: brings both coins to
      `max(xd, yd)` decimals, solves, and scales the result back to `y`'s
      decimals with a division that truncates toward zero. */
  function ComputeYDecimal(dx: int, x: int, y: int, A: int, xd: int, yd: int): Result<int>
  {
    var md := Max(xd, yd);
    var xs := BigintPow(10, md - xd);
    var ys := BigintPow(10, md - yd);
    ScaledDown(ComputeYSpec(dx * xs, x * xs, y * ys, A), ys)
  }

  /** `dy / ys` on a successful result; a thrown error passes through. */
  function ScaledDown(r: Result<int>, ys: int): Result<int>
    requires ys != 0
  {
    match r
    case Err(e) => Err(e)
    case Ok(dy) => Ok(TDiv(dy, ys))
  }

  /** When `y` has at least as many decimals as `x`, only `x` and `dx` are
      scaled, by `10^(yd - xd)`, and the answer is `computeY`'s unchanged;
      with equal decimals it is plain `computeY`. */
  lemma ComputeYDecimalAligned(dx: int, x: int, y: int, A: int, xd: int, yd: int)
    requires xd <= yd
    ensures ComputeYDecimal(dx, x, y, A, xd, yd)
         == ComputeYSpec(dx * Power(10, yd - xd), x * Power(10, yd - xd), y, A)
    ensures xd == yd ==> ComputeYDecimal(dx, x, y, A, xd, yd) == ComputeYSpec(dx, x, y, A)
  {
    var xs, ys := DecimalScales(xd, yd);
    TimesOne(y, ys);
    var r := ComputeYSpec(dx * xs, x * xs, y, A);
    ScaledDownByOne(r);
    if xd == yd {
      TimesOne(dx, xs);
      TimesOne(x, xs);
    }
  }

  /** The two scale factors of `computeYDecimal`: one of them is 1, the
      other the power of ten between the decimals. */
  lemma DecimalScales(xd: int, yd: int) returns (xs: int, ys: int)
    ensures xs == BigintPow(10, Max(xd, yd) - xd) && ys == BigintPow(10, Max(xd, yd) - yd)
    ensures xd <= yd ==> xs == Power(10, yd - xd) && ys == 1
    ensures yd < xd ==> xs == 1 && ys == Power(10, xd - yd)
  {
    xs, ys := BigintPow(10, Max(xd, yd) - xd), BigintPow(10, Max(xd, yd) - yd);
    assert Power(10, 0) == 1;
  }

  lemma TimesOne(a: int, k: int)
    requires k == 1
    ensures a * k == a
  {
  }

  lemma ScaledDownByOne(r: Result<int>)
    ensures ScaledDown(r, 1) == r
  {
    if r.Ok? {
      TDivMeaning(r.value, 1);
    }
  }

  /** When `x` has more decimals, `y` is scaled up by `10^(xd - yd)` and the
      answer is divided back down by the same power of ten. */
  lemma ComputeYDecimalScaledBack(dx: int, x: int, y: int, A: int, xd: int, yd: int)
    requires yd < xd
    ensures ComputeYDecimal(dx, x, y, A, xd, yd)
         == ScaledDown(ComputeYSpec(dx, x, y * Power(10, xd - yd), A), Power(10, xd - yd))
  {
    var xs, ys := DecimalScales(xd, yd);
    TimesOne(dx, xs);
    TimesOne(x, xs);
  }
}
