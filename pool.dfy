/** The integer part of `PoolInfo` in `src/internal/common.ts`: swap
    availability, fee-ordered quotes over the constant-product and the stable
    curve, the stable price as a rational, and the deposit helpers. */
module Pool {
  import opened Js
  import opened Utils
  import opened Common
  import opened StableSwapHelper
  import opened Arith

  /** `PoolInfo.BPS_SCALING`: fees are in basis points. */
  const BpsScaling: int := 10000

  datatype SwapType = V2 | Stable

  datatype FeeDirection = FeeX | FeeY

  datatype PoolDirection = Forward | Reverse

  /** The fields of `PoolInfo` that its integer logic reads. */
  datatype PoolInfo = PoolInfo(
    addr: string,
    poolType: PoolType,
    swapType: SwapType,
    lspSupply: int,
    freeze: bool,
    feeDirection: FeeDirection,
    adminFee: int,
    lpFee: int,
    thFee: int,
    x: int,
    y: int,
    stableAmp: int,
    stableXScale: int,
    stableYScale: int)

  // ---------------------------------------------------------------------------
  // Availability
  // ---------------------------------------------------------------------------

  /** `EPoolNotAvaliableReason`. */
  datatype Unavailable = Freeze | Empty

  function Message(r: Unavailable): string
  {
    match r
    case Freeze => "Pool is freezed"
    case Empty => "Pool is empty, deposit first"
  }

  /** `getNotAvaliableForSwapReason()`: a frozen pool first, then an empty one. */
  function GetNotAvailableForSwapReason(p: PoolInfo): Option<Unavailable>
  {
    if p.freeze then Some(Freeze)
    else if p.x == 0 || p.y == 0 then Some(Empty)
    else None
  }

  /** `isAvaliableForSwap()`. */
  predicate IsAvailableForSwap(p: PoolInfo)
  {
    GetNotAvailableForSwapReason(p) == None
  }

  /** `isInitialized()`: both reserves positive. */
  predicate IsInitialized(p: PoolInfo)
  {
    p.x > 0 && p.y > 0
  }

  /** Freezing is reported before emptiness, and a pool is available exactly
      when it is neither frozen nor has an empty reserve. */
  lemma AvailabilityReasons(p: PoolInfo)
    ensures GetNotAvailableForSwapReason(p) == Some(Freeze) <==> p.freeze
    ensures GetNotAvailableForSwapReason(p) == Some(Empty) <==> !p.freeze && (p.x == 0 || p.y == 0)
    ensures IsAvailableForSwap(p) <==> !p.freeze && p.x != 0 && p.y != 0
  {
  }

  /** An initialised pool that is not frozen is available; an available pool
      that is not initialised has a negative reserve. */
  lemma InitializedAndAvailable(p: PoolInfo)
    ensures IsInitialized(p) && !p.freeze ==> IsAvailableForSwap(p)
    ensures IsAvailableForSwap(p) && !IsInitialized(p) ==> p.x < 0 || p.y < 0
  {
  }

  // ---------------------------------------------------------------------------
  // Curves
  // ---------------------------------------------------------------------------

  /** `_computeAmount(dx, x, y)`: `y*dx / (x+dx)`, throwing on a zero divisor. */
  function ComputeAmount(dx: int, x: int, y: int): Result<int>
  {
    if x + dx == 0 then Err(DivisionByZero) else Ok(TDiv(y * dx, x + dx))
  }

  /** `_computeAmountStable(dx, x, y, xScale, yScale)`: `computeY` on the
      scaled amounts, scaled back down by `yScale`. */
  function ComputeAmountStable(dx: int, x: int, y: int, xScale: int, yScale: int, amp: int): Result<int>
  {
    match ComputeYSpec(dx * xScale, x * xScale, y * yScale, amp)
    case Err(e) => Err(e)
    case Ok(dy) => if yScale == 0 then Err(DivisionByZero) else Ok(TDiv(dy, yScale))
  }

  /** The curve `getXToYAmount` dispatches to on the pool's swap type. */
  function Curve(p: PoolInfo, dx: int, x: int, y: int, xScale: int, yScale: int): Result<int>
  {
    if p.swapType == V2 then ComputeAmount(dx, x, y)
    else ComputeAmountStable(dx, x, y, xScale, yScale, p.stableAmp)
  }

  /** The stable quote fails exactly when `computeY` on the scaled amounts
      fails or `y_scale` is 0, so always with a zero amplification; with both
      scales 1 it is `computeY` of the amounts themselves. */
  lemma StableQuoteFails(dx: int, x: int, y: int, xScale: int, yScale: int, amp: int)
    ensures ComputeAmountStable(dx, x, y, xScale, yScale, amp).Err? <==>
      yScale == 0 || ComputeYSpec(dx * xScale, x * xScale, y * yScale, amp).Err?
    ensures amp == 0 ==> ComputeAmountStable(dx, x, y, xScale, yScale, amp).Err?
    ensures xScale == 1 && yScale == 1 ==>
      ComputeAmountStable(dx, x, y, xScale, yScale, amp) == ComputeYSpec(dx, x, y, amp)
  {
    if amp == 0 {
      ComputeYNeedsAmplification(dx * xScale, x * xScale, y * yScale);
    }
    if xScale == 1 && yScale == 1 {
      TimesOne(dx, xScale);
      TimesOne(x, xScale);
      TimesOne(y, yScale);
      ScaledDownByOne(ComputeYSpec(dx, x, y, amp));
    }
  }

  /** With the scales `10^(max(xd, yd) - xd)` and `10^(max(xd, yd) - yd)`
      that align both coins' decimals, the stable quote is
      `computeYDecimal(dx, x, y, A, xd, yd)`. */
  lemma StableQuoteAtDecimalScales(dx: int, x: int, y: int, amp: int, xd: int, yd: int)
    ensures var md := Max(xd, yd);
      ComputeAmountStable(dx, x, y, BigintPow(10, md - xd), BigintPow(10, md - yd), amp)
        == ComputeYDecimal(dx, x, y, amp, xd, yd)
  {
  }

  /** The constant-product quote never empties the pool and never lowers
      `x * y`: `(x + dx) * (y - dy) >= x * y`. */
  lemma ConstantProduct(dx: int, x: int, y: int)
    requires x > 0 && dx >= 0 && y >= 0
    ensures ComputeAmount(dx, x, y).Ok?
    ensures var dy := ComputeAmount(dx, x, y).value;
      && 0 <= dy <= y
      && (y > 0 ==> dy < y)
      && (x + dx) * (y - dy) >= x * y
  {
    var dy := ComputeAmount(dx, x, y).value;
    NonNegativeProduct(y, dx);
    QuotientIsFloor(y * dx, x + dx, dy);
    ConstantProductSteps(dx, x, y, dy);
  }

  lemma ConstantProductSteps(dx: int, x: int, y: int, dy: int)
    requires x > 0 && dx >= 0 && y >= 0
    requires dy * (x + dx) <= y * dx
    ensures dy <= y && (y > 0 ==> dy < y)
    ensures (x + dx) * (y - dy) >= x * y
  {
    assert y * dx <= y * (x + dx) by {
      MultiplyBoth(dx, x + dx, y);
    }
    CancelLe(dy, y, x + dx);
    if y > 0 {
      MultiplyBothStrict(dx, x + dx, y);
      CancelLt(dy, y, x + dx);
    }
    assert (x + dx) * (y - dy) == (x + dx) * y - dy * (x + dx);
    assert (x + dx) * y == x * y + y * dx;
  }

  /** A larger input never gives a smaller constant-product output. */
  lemma ComputeAmountMonotonic(dx1: int, dx2: int, x: int, y: int)
    requires x > 0 && y >= 0 && 0 <= dx1 <= dx2
    ensures ComputeAmount(dx1, x, y).Ok? && ComputeAmount(dx2, x, y).Ok?
    ensures ComputeAmount(dx1, x, y).value <= ComputeAmount(dx2, x, y).value
  {
    var q1 := ComputeAmount(dx1, x, y).value;
    var q2 := ComputeAmount(dx2, x, y).value;
    NonNegativeProduct(y, dx1);
    NonNegativeProduct(y, dx2);
    QuotientIsFloor(y * dx1, x + dx1, q1);
    QuotientIsFloor(y * dx2, x + dx2, q2);
    CrossMultiplied(y, x, dx1, dx2);
    FloorMonotonic(y * dx1, x + dx1, y * dx2, x + dx2, q1, q2);
  }

  lemma CrossMultiplied(y: int, x: int, dx1: int, dx2: int)
    requires x > 0 && y >= 0 && 0 <= dx1 <= dx2
    ensures (y * dx1) * (x + dx2) <= (y * dx2) * (x + dx1)
  {
    assert (y * dx1) * (x + dx2) == y * x * dx1 + y * dx1 * dx2;
    assert (y * dx2) * (x + dx1) == y * x * dx2 + y * dx1 * dx2;
    assert y * x * dx1 <= y * x * dx2 by {
      NonNegativeProduct(y * x, dx2 - dx1);
    }
  }

  /** `a/b <= c/d` as fractions gives the same order on their floors. */
  lemma FloorMonotonic(a: int, b: int, c: int, d: int, q1: int, q2: int)
    requires b > 0 && d > 0 && a * d <= c * b
    requires q1 * b <= a && c < (q2 + 1) * d
    ensures q1 <= q2
  {
    assert q1 * b * d <= a * d by {
      MultiplyBoth(q1 * b, a, d);
    }
    assert c * b < (q2 + 1) * d * b by {
      MultiplyBothStrict(c, (q2 + 1) * d, b);
    }
    assert q1 * (b * d) < (q2 + 1) * (b * d);
    PositiveProduct(b, d);
    CancelLt(q1, q2 + 1, b * d);
  }

  // ---------------------------------------------------------------------------
  // Fees and quotes
  // ---------------------------------------------------------------------------

  /** One fee step `amt -= amt * bps / BPS_SCALING`. */
  function TakeFee(amt: int, bps: int): int
  {
    amt - TDiv(amt * bps, BpsScaling)
  }

  /** A fee between 0 and 100% leaves between nothing and everything of a
      non-negative amount; it keeps `amt - floor(amt * bps / 10000)`; a zero
      fee keeps the amount whatever its sign. */
  lemma TakeFeeBounds(amt: int, bps: int)
    ensures bps == 0 ==> TakeFee(amt, bps) == amt
    ensures amt >= 0 && 0 <= bps <= BpsScaling ==>
      && 0 <= TakeFee(amt, bps) <= amt
      && TakeFee(amt, bps) == amt - amt * bps / BpsScaling
  {
    if bps == 0 {
      TDivMeaning(0, BpsScaling);
    }
    if amt >= 0 && 0 <= bps <= BpsScaling {
      NonNegativeProduct(amt, bps);
      MultiplyBoth(bps, BpsScaling, amt);
      assert amt * bps <= amt * BpsScaling;
      TDivMeaning(amt * bps, BpsScaling);
      EuclidOnNaturals(amt * bps, BpsScaling);
    }
  }

  /** The admin fee, then the token-holder fee, when the pool charges fees on
      `side`; nothing otherwise. */
  function SideFees(p: PoolInfo, amt: int, side: FeeDirection): int
  {
    if p.feeDirection == side then TakeFee(TakeFee(amt, p.adminFee), p.thFee) else amt
  }

  /** What `getXToYAmount(dx)` returns: side fees on the input (direction X),
      the LP fee on the input, the curve, then side fees on the output
      (direction Y). */
  function XToYAmount(p: PoolInfo, dx: int): Result<int>
  {
    var input := TakeFee(SideFees(p, dx, FeeX), p.lpFee);
    match Curve(p, input, p.x, p.y, p.stableXScale, p.stableYScale)
    case Err(e) => Err(e)
    case Ok(dy) => Ok(SideFees(p, dy, FeeY))
  }

  /** What `getYToXAmount(dy)` returns: the mirror image of `XToYAmount`. */
  function YToXAmount(p: PoolInfo, dy: int): Result<int>
  {
    var input := TakeFee(SideFees(p, dy, FeeY), p.lpFee);
    match Curve(p, input, p.y, p.x, p.stableYScale, p.stableXScale)
    case Err(e) => Err(e)
    case Ok(dx) => Ok(SideFees(p, dx, FeeX))
  }

  /** The fee block `getXToYAmount` and `getYToXAmount` repeat on each side:
      `dfee = amt * adminFee / BPS_SCALING; amt -= dfee`, then the same with
      the token-holder fee, when the pool charges fees on `side`. */
  method ChargeSideFees(p: PoolInfo, amt: int, side: FeeDirection) returns (r: int)
    ensures r == SideFees(p, amt, side)
  {
    r := amt;
    if p.feeDirection == side {
      var dfee := TDiv(r * p.adminFee, BpsScaling);
      r := r - dfee;
      var dfeeTh := TDiv(r * p.thFee, BpsScaling);
      r := r - dfeeTh;
    }
  }

  /** `getXToYAmount(dx)`, statement by statement. */
  method GetXToYAmount(p: PoolInfo, dx: int) returns (r: Result<int>)
    ensures r == XToYAmount(p, dx)
  {
    var amt := ChargeSideFees(p, dx, FeeX);
    var dxLp := TDiv(amt * p.lpFee, BpsScaling);
    amt := amt - dxLp;
    var dy := Curve(p, amt, p.x, p.y, p.stableXScale, p.stableYScale);
    XToYAmountOf(p, dx, amt, dy);
    if dy.Err? {
      return Err(dy.error);
    }
    var out := ChargeSideFees(p, dy.value, FeeY);
    return Ok(out);
  }

  /** `getYToXAmount(dy)`, statement by statement. */
  method GetYToXAmount(p: PoolInfo, dy: int) returns (r: Result<int>)
    ensures r == YToXAmount(p, dy)
  {
    var amt := ChargeSideFees(p, dy, FeeY);
    var dyLp := TDiv(amt * p.lpFee, BpsScaling);
    amt := amt - dyLp;
    var dx := Curve(p, amt, p.y, p.x, p.stableYScale, p.stableXScale);
    YToXAmountOf(p, dy, amt, dx);
    if dx.Err? {
      return Err(dx.error);
    }
    var out := ChargeSideFees(p, dx.value, FeeX);
    return Ok(out);
  }

  lemma XToYAmountOf(p: PoolInfo, dx: int, input: int, dy: Result<int>)
    requires input == TakeFee(SideFees(p, dx, FeeX), p.lpFee)
    requires dy == Curve(p, input, p.x, p.y, p.stableXScale, p.stableYScale)
    ensures XToYAmount(p, dx) == if dy.Err? then Err(dy.error) else Ok(SideFees(p, dy.value, FeeY))
  {
  }

  lemma YToXAmountOf(p: PoolInfo, dy: int, input: int, dx: Result<int>)
    requires input == TakeFee(SideFees(p, dy, FeeY), p.lpFee)
    requires dx == Curve(p, input, p.y, p.x, p.stableYScale, p.stableXScale)
    ensures YToXAmount(p, dy) == if dx.Err? then Err(dx.error) else Ok(SideFees(p, dx.value, FeeX))
  {
  }

  /** The pool with X and Y exchanged. */
  function Mirror(p: PoolInfo): PoolInfo
  {
    p.(poolType := PoolType(p.poolType.yTokenType, p.poolType.xTokenType),
       x := p.y, y := p.x,
       stableXScale := p.stableYScale, stableYScale := p.stableXScale,
       feeDirection := if p.feeDirection == FeeX then FeeY else FeeX)
  }

  /** Quoting Y for X is quoting X for Y on the mirrored pool. */
  lemma YToXIsMirrored(p: PoolInfo, dy: int)
    ensures YToXAmount(p, dy) == XToYAmount(Mirror(p), dy)
  {
    assert Mirror(p).feeDirection == FeeX <==> p.feeDirection == FeeY;
  }

  /** Without fees, a constant-product pool quotes exactly `Y*dx / (X+dx)`. */
  lemma FeeFreeQuote(p: PoolInfo, dx: int)
    requires p.swapType == V2 && p.adminFee == 0 && p.thFee == 0 && p.lpFee == 0
    ensures XToYAmount(p, dx) == ComputeAmount(dx, p.x, p.y)
  {
    TakeFeeBounds(dx, 0);
    TakeFeeBounds(TakeFee(dx, 0), 0);
    TakeFeeBounds(TakeFee(TakeFee(dx, 0), 0), 0);
    var r := ComputeAmount(dx, p.x, p.y);
    if r.Ok? {
      TakeFeeBounds(r.value, 0);
      TakeFeeBounds(TakeFee(r.value, 0), 0);
    }
  }

  /** With fees between 0 and 100% on a constant-product pool with positive
      reserves, a non-negative input quotes a non-negative output that is
      below the Y reserve and no more than the fee-free quote. */
  lemma QuoteWithinReserve(p: PoolInfo, dx: int)
    requires p.swapType == V2 && p.x > 0 && p.y > 0 && dx >= 0
    requires 0 <= p.adminFee <= BpsScaling && 0 <= p.thFee <= BpsScaling
    requires 0 <= p.lpFee <= BpsScaling
    ensures XToYAmount(p, dx).Ok?
    ensures 0 <= XToYAmount(p, dx).value < p.y
    ensures XToYAmount(p, dx).value <= ComputeAmount(dx, p.x, p.y).value
  {
    var a := SideFees(p, dx, FeeX);
    assert 0 <= a <= dx by {
      TakeFeeBounds(dx, p.adminFee);
      TakeFeeBounds(TakeFee(dx, p.adminFee), p.thFee);
    }
    var input := TakeFee(a, p.lpFee);
    TakeFeeBounds(a, p.lpFee);
    ConstantProduct(input, p.x, p.y);
    ComputeAmountMonotonic(input, dx, p.x, p.y);
    var dy := ComputeAmount(input, p.x, p.y).value;
    assert 0 <= SideFees(p, dy, FeeY) <= dy by {
      TakeFeeBounds(dy, p.adminFee);
      TakeFeeBounds(TakeFee(dy, p.adminFee), p.thFee);
    }
  }

  /** A fee step between 0 and 100% never turns a larger non-negative amount
      into a smaller one: the fee grows by at most what the amount grows. */
  lemma TakeFeeMonotonic(a1: int, a2: int, bps: int)
    requires 0 <= a1 <= a2 && 0 <= bps <= BpsScaling
    ensures 0 <= TakeFee(a1, bps) <= TakeFee(a2, bps)
  {
    TakeFeeBounds(a1, bps);
    var q1, q2 := TDiv(a1 * bps, BpsScaling), TDiv(a2 * bps, BpsScaling);
    NonNegativeProduct(a1, bps);
    NonNegativeProduct(a2, bps);
    QuotientIsFloor(a1 * bps, BpsScaling, q1);
    QuotientIsFloor(a2 * bps, BpsScaling, q2);
    MultiplyBoth(bps, BpsScaling, a2 - a1);
    assert (a2 - a1) * bps == a2 * bps - a1 * bps;
    assert (q2 - q1 - 1) * BpsScaling < (a2 - a1) * BpsScaling;
    CancelLt(q2 - q1 - 1, a2 - a1, BpsScaling);
  }

  /** The side fees keep the order of non-negative amounts. */
  lemma SideFeesMonotonic(p: PoolInfo, a1: int, a2: int, side: FeeDirection)
    requires 0 <= a1 <= a2
    requires 0 <= p.adminFee <= BpsScaling && 0 <= p.thFee <= BpsScaling
    ensures 0 <= SideFees(p, a1, side) <= SideFees(p, a2, side)
  {
    if p.feeDirection == side {
      TakeFeeMonotonic(a1, a2, p.adminFee);
      TakeFeeMonotonic(TakeFee(a1, p.adminFee), TakeFee(a2, p.adminFee), p.thFee);
    }
  }

  /** With fees between 0 and 100% on a constant-product pool with positive
      reserves, a larger input never quotes a smaller output, fees included. */
  lemma XToYAmountMonotonic(p: PoolInfo, dx1: int, dx2: int)
    requires p.swapType == V2 && p.x > 0 && p.y > 0 && 0 <= dx1 <= dx2
    requires 0 <= p.adminFee <= BpsScaling && 0 <= p.thFee <= BpsScaling
    requires 0 <= p.lpFee <= BpsScaling
    ensures XToYAmount(p, dx1).Ok? && XToYAmount(p, dx2).Ok?
    ensures XToYAmount(p, dx1).value <= XToYAmount(p, dx2).value
  {
    SideFeesMonotonic(p, dx1, dx2, FeeX);
    var a1, a2 := SideFees(p, dx1, FeeX), SideFees(p, dx2, FeeX);
    TakeFeeMonotonic(a1, a2, p.lpFee);
    var i1, i2 := TakeFee(a1, p.lpFee), TakeFee(a2, p.lpFee);
    ConstantProduct(i1, p.x, p.y);
    ComputeAmountMonotonic(i1, i2, p.x, p.y);
    SideFeesMonotonic(p, ComputeAmount(i1, p.x, p.y).value, ComputeAmount(i2, p.x, p.y).value, FeeY);
  }

  /** The same for quoting X against Y, through the mirrored pool. */
  lemma YToXAmountMonotonic(p: PoolInfo, dy1: int, dy2: int)
    requires p.swapType == V2 && p.x > 0 && p.y > 0 && 0 <= dy1 <= dy2
    requires 0 <= p.adminFee <= BpsScaling && 0 <= p.thFee <= BpsScaling
    requires 0 <= p.lpFee <= BpsScaling
    ensures YToXAmount(p, dy1).Ok? && YToXAmount(p, dy2).Ok?
    ensures YToXAmount(p, dy1).value <= YToXAmount(p, dy2).value
  {
    YToXIsMirrored(p, dy1);
    YToXIsMirrored(p, dy2);
    XToYAmountMonotonic(Mirror(p), dy1, dy2);
  }

  // ---------------------------------------------------------------------------
  // Minimum output
  // ---------------------------------------------------------------------------

  /** `BigIntConstants._1E9`: the slippage factor's scale. */
  const SlippageScaling: int := 1000000000

  /** The integer step of `getXToYMinOutputAmount(dx, slippage)`: the quote
      times `k / 1e9`, where `k` is the rounded factor
      `Math.round(1e9 * (1 - slippage))`. */
  function XToYMinOutputAmount(p: PoolInfo, dx: int, k: int): Result<int>
  {
    match XToYAmount(p, dx)
    case Err(e) => Err(e)
    case Ok(dy) => Ok(TDiv(dy * k, SlippageScaling))
  }

  /** The integer step of `getYToXMinOutputAmount(dy, slippage)`. */
  function YToXMinOutputAmount(p: PoolInfo, dy: int, k: int): Result<int>
  {
    match YToXAmount(p, dy)
    case Err(e) => Err(e)
    case Ok(dx) => Ok(TDiv(dx * k, SlippageScaling))
  }

  /** A factor between 0 and 1e9 keeps the minimum output between zero and
      the quote; a factor of exactly 1e9 (no slippage) keeps the quote. */
  lemma MinOutputWithinQuote(amount: int, k: int)
    requires amount >= 0 && 0 <= k <= SlippageScaling
    ensures 0 <= TDiv(amount * k, SlippageScaling) <= amount
    ensures k == SlippageScaling ==> TDiv(amount * k, SlippageScaling) == amount
  {
    NonNegativeProduct(amount, k);
    var m := TDiv(amount * k, SlippageScaling);
    QuotientIsFloor(amount * k, SlippageScaling, m);
    MultiplyBoth(k, SlippageScaling, amount);
    assert amount * k <= amount * SlippageScaling;
    CancelLe(m, amount, SlippageScaling);
    if k == SlippageScaling {
      CancelLt(amount, m + 1, SlippageScaling);
    }
  }

  /** The minimum output fails exactly when the quote fails, and lies between
      zero and a non-negative quote. */
  lemma MinOutputAmounts(p: PoolInfo, a: int, k: int)
    requires 0 <= k <= SlippageScaling
    ensures XToYMinOutputAmount(p, a, k).Ok? <==> XToYAmount(p, a).Ok?
    ensures YToXMinOutputAmount(p, a, k).Ok? <==> YToXAmount(p, a).Ok?
    ensures XToYAmount(p, a).Ok? && XToYAmount(p, a).value >= 0 ==>
      0 <= XToYMinOutputAmount(p, a, k).value <= XToYAmount(p, a).value
    ensures YToXAmount(p, a).Ok? && YToXAmount(p, a).value >= 0 ==>
      0 <= YToXMinOutputAmount(p, a, k).value <= YToXAmount(p, a).value
  {
    if XToYAmount(p, a).Ok? && XToYAmount(p, a).value >= 0 {
      MinOutputWithinQuote(XToYAmount(p, a).value, k);
    }
    if YToXAmount(p, a).Ok? && YToXAmount(p, a).value >= 0 {
      MinOutputWithinQuote(YToXAmount(p, a).value, k);
    }
  }

  // ---------------------------------------------------------------------------
  // Stable price
  // ---------------------------------------------------------------------------

  /** `_getPriceStableRational(xDecimal, yDecimal)`: both reserves brought to
      the larger number of decimals, `D` from `computeD`, and the price as the
      pair (numerator, denominator). */
  function PriceStableRational(p: PoolInfo, xDecimal: int, yDecimal: int): Result<(int, int)>
  {
    var A, q, b := p.stableAmp, p.x, p.y;
    var md := Max(yDecimal, xDecimal);
    var b1 := b * BigintPow(10, md - yDecimal);
    var q1 := q * BigintPow(10, md - xDecimal);
    PriceFromD(b1, q1, A, ComputeDSpec(b1, q1, A))
  }

  /** The price pair once `computeD` has run on the aligned reserves `b1`
      (Y) and `q1` (X); its error passes through. */
  function PriceFromD(b1: int, q1: int, A: int, dr: Result<int>): Result<(int, int)>
  {
    match dr
    case Err(e) => Err(e)
    case Ok(d) =>
      var pn := b1 * (d + 4 * A * (2 * q1 + b1 - d));
      var pd := q1 * (d + 4 * A * (2 * b1 + q1 - d));
      Ok((pn, pd))
  }

  /** A balanced stable pool (equal reserves, equal decimals) is priced at
      exactly 1: numerator and denominator agree. */
  lemma BalancedPriceIsOne(p: PoolInfo, decimals: int)
    requires p.x == p.y && p.x > 0 && p.stableAmp >= 1
    ensures PriceStableRational(p, decimals, decimals).Ok?
    ensures PriceStableRational(p, decimals, decimals).value.0
         == PriceStableRational(p, decimals, decimals).value.1
    ensures PriceStableRational(p, decimals, decimals).value.1 > 0
  {
    var b, A := p.x, p.stableAmp;
    SameDecimalsAligned(p.x, decimals);
    SameDecimalsAligned(p.y, decimals);
    var pn := BalancedPrice(b, A);
    assert PriceStableRational(p, decimals, decimals) == Ok((pn, pn));
  }

  lemma BalancedPrice(b: int, A: int) returns (pn: int)
    requires b > 0 && A >= 1
    ensures PriceFromD(b, b, A, ComputeDSpec(b, b, A)) == Ok((pn, pn)) && pn > 0
  {
    BalancedPoolD(b, A);
    pn := BalancedPriceParts(b, A);
  }

  lemma BalancedPriceParts(b: int, A: int) returns (pn: int)
    requires b > 0 && A >= 1
    ensures PriceFromD(b, b, A, Ok(2 * b)) == Ok((pn, pn)) && pn > 0
  {
    pn := BalancedNumerator(b, A);
  }

  lemma SameDecimalsAligned(r: int, decimals: int)
    ensures r * BigintPow(10, Max(decimals, decimals) - decimals) == r
  {
    assert BigintPow(10, 0) == 1;
  }

  lemma BalancedNumerator(b: int, A: int) returns (pn: int)
    requires b > 0 && A >= 1
    ensures var d := 2 * b; pn == b * (d + 4 * A * (2 * b + b - d)) && pn > 0
  {
    var d := 2 * b;
    pn := b * (d + 4 * A * (2 * b + b - d));
    assert 2 * b + b - d == b;
    NonNegativeProduct(4 * A, b);
    PositiveProduct(b, d + 4 * A * b);
  }

  // ---------------------------------------------------------------------------
  // Deposits
  // ---------------------------------------------------------------------------

  /** `getDepositXAmount(y)`: the X to deposit alongside `y` at the pool ratio. */
  function GetDepositXAmount(p: PoolInfo, y: int): int
  {
    if p.y == 0 then 0 else TDiv(p.x * y, p.y)
  }

  /** `getDepositYAmount(x)`: the Y to deposit alongside `x` at the pool ratio. */
  function GetDepositYAmount(p: PoolInfo, x: int): int
  {
    if p.x == 0 then 0 else TDiv(x * p.y, p.x)
  }

  /** What `getDepositAmount(xMax, yMax)` returns. */
  function DepositAmount(p: PoolInfo, xMax: int, yMax: int): (int, int)
  {
    if !IsInitialized(p) || xMax <= 0 || yMax <= 0 then (0, 0)
    else if GetDepositXAmount(p, yMax) > xMax then
      var y := GetDepositYAmount(p, xMax);
      (xMax, if y < yMax then y else yMax)
    else
      var x := GetDepositXAmount(p, yMax);
      (if x < xMax then x else xMax, yMax)
  }

  /** `getDepositAmount(xMax, yMax)`, statement by statement. */
  method GetDepositAmount(p: PoolInfo, xMax: int, yMax: int) returns (x: int, y: int)
    ensures (x, y) == DepositAmount(p, xMax, yMax)
  {
    if !IsInitialized(p) || xMax <= 0 || yMax <= 0 {
      return 0, 0;
    }
    x, y := 0, 0;
    if GetDepositXAmount(p, yMax) > xMax {
      x := xMax;
      y := GetDepositYAmount(p, xMax);
      y := if y < yMax then y else yMax;
    } else {
      y := yMax;
      x := GetDepositXAmount(p, yMax);
      x := if x < xMax then x else xMax;
    }
  }

  /** Nothing is deposited into an uninitialised pool or against a cap that is
      not positive. Otherwise both amounts are non-negative and within their
      caps, one of them is its cap, and the other is the pool-ratio amount for
      it rounded down: `y = floor(x * Y / X)` or `x = floor(y * X / Y)`. */
  lemma DepositWithinCaps(p: PoolInfo, xMax: int, yMax: int)
    ensures !IsInitialized(p) || xMax <= 0 || yMax <= 0 ==> DepositAmount(p, xMax, yMax) == (0, 0)
    ensures IsInitialized(p) && xMax > 0 && yMax > 0 ==>
      var (x, y) := DepositAmount(p, xMax, yMax);
      && 0 <= x <= xMax && 0 <= y <= yMax
      && ((x == xMax && y * p.x <= x * p.y < (y + 1) * p.x)
       || (y == yMax && x * p.y <= y * p.x < (x + 1) * p.y))
  {
    if IsInitialized(p) && xMax > 0 && yMax > 0 {
      var xs := GetDepositXAmount(p, yMax);
      var ys := GetDepositYAmount(p, xMax);
      NonNegativeProduct(p.x, yMax);
      NonNegativeProduct(xMax, p.y);
      QuotientIsFloor(p.x * yMax, p.y, xs);
      QuotientIsFloor(xMax * p.y, p.x, ys);
      if xs > xMax {
        RatioBelowCap(p.x, p.y, xMax, yMax, xs, ys);
      }
    }
  }

  /** When `yMax` asks for more X than `xMax`, the Y amount for `xMax` is
      below `yMax`, so the clamp on it does not apply. */
  lemma RatioBelowCap(px: int, py: int, xMax: int, yMax: int, xs: int, ys: int)
    requires px > 0 && py > 0
    requires xs * py <= px * yMax && ys * px <= xMax * py
    requires xs > xMax
    ensures ys < yMax
  {
    MultiplyBoth(xMax + 1, xs, py);
    assert (xMax + 1) * py == xMax * py + py;
    assert ys * px < yMax * px;
    CancelLt(ys, yMax, px);
  }

  // ---------------------------------------------------------------------------
  // Coin pairs
  // ---------------------------------------------------------------------------

  /** `getSwapDirection(x, y)`: forward for the pool's own order, reverse for
      the swapped order, nothing otherwise. */
  function GetSwapDirection(p: PoolInfo, cx: CoinType, cy: CoinType): Option<PoolDirection>
  {
    var x_, y_ := p.poolType.xTokenType, p.poolType.yTokenType;
    if cx == x_ && cy == y_ then Some(Forward)
    else if cx == y_ && cy == x_ then Some(Reverse)
    else None
  }

  lemma SwapDirectionSpec(p: PoolInfo, cx: CoinType, cy: CoinType)
    ensures GetSwapDirection(p, cx, cy).Some? <==>
      {cx, cy} == {p.poolType.xTokenType, p.poolType.yTokenType}
    ensures GetSwapDirection(p, cx, cy) == Some(Forward) <==>
      (cx, cy) == (p.poolType.xTokenType, p.poolType.yTokenType)
    ensures GetSwapDirection(p, cx, cy) == Some(Reverse) ==>
      GetSwapDirection(p, cy, cx) == Some(Forward)
  {
    var x_, y_ := p.poolType.xTokenType, p.poolType.yTokenType;
    if {cx, cy} == {x_, y_} {
      assert cx in {x_, y_} && cy in {x_, y_};
      if cx == cy {
        assert x_ in {cx, cy} && y_ in {cx, cy};
      }
    }
  }

  /** `isCapableSwappingForCoins(x, y)` as written: `&&` binds tighter than
      `||`, so the reversed pair is accepted whatever the pool's state. */
  predicate IsCapableSwappingForCoins(p: PoolInfo, cx: CoinType, cy: CoinType)
  {
    var x_, y_ := p.poolType.xTokenType, p.poolType.yTokenType;
    (IsInitialized(p) && IsAvailableForSwap(p) && (cx == x_ && cy == y_)) || (cx == y_ && cy == x_)
  }

  /** A frozen, empty pool still accepts its coins in reversed order. */
  lemma FrozenPoolAcceptsReversedPair()
    ensures var sui := MoveType("0x2", "sui", "SUI");
      var usdc := MoveType("0x5d4b", "coin", "COIN");
      var p := PoolInfo("0xpool", PoolType(sui, usdc), V2, 0, true, FeeX, 0, 0, 0, 0, 0, 0, 1, 1);
      && !IsAvailableForSwap(p) && !IsInitialized(p)
      && IsCapableSwappingForCoins(p, usdc, sui)
  {
  }

  /** The evidently intended `isCapableSwappingForCoins`: the pool must be
      initialised and available, and the pair must be the pool's in either
      order. */
  predicate IsCapableSwappingForCoinsIntended(p: PoolInfo, cx: CoinType, cy: CoinType)
  {
    var x_, y_ := p.poolType.xTokenType, p.poolType.yTokenType;
    IsInitialized(p) && IsAvailableForSwap(p) && ((cx == x_ && cy == y_) || (cx == y_ && cy == x_))
  }

  /** The intended check accepts exactly the pairs `getSwapDirection`
      recognises on a pool that can swap, and agrees with the written one on
      such pools. */
  lemma CapableMeansSwappable(p: PoolInfo, cx: CoinType, cy: CoinType)
    ensures IsCapableSwappingForCoinsIntended(p, cx, cy) <==>
      IsInitialized(p) && !p.freeze && GetSwapDirection(p, cx, cy).Some?
    ensures IsInitialized(p) && IsAvailableForSwap(p) ==>
      (IsCapableSwappingForCoinsIntended(p, cx, cy) <==> IsCapableSwappingForCoins(p, cx, cy))
  {
  }
}
