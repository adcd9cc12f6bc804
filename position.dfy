/** `PositionInfo` of `src/internal/common.ts`: a liquidity position, the part
    of it a ratio selects, and the coins that part is worth. */
module Position {
  import opened Js
  import opened Utils
  import opened Arith
  import opened Demical
  import opened Rewards
  import opened Pool

  datatype PositionInfo = PositionInfo(
    addr: string,
    poolInfo: PoolInfo,
    value: int,
    poolX: int,
    poolY: int,
    poolMiningAmpt: ValuePerToken,
    startEpoch: int,
    endEpoch: int,
    boostMultiplier: int,
    ratio: Option<DemicalFormat>)

  /** `partial(ratio)`: a copy of the position with `ratio` set. */
  function Partial(p: PositionInfo, ratio: DemicalFormat): (q: PositionInfo)
    ensures q.ratio == Some(ratio)
    ensures q.(ratio := p.ratio) == p
  {
    p.(ratio := Some(ratio))
  }

  /** Selecting a part twice keeps only the second ratio. */
  lemma PartialOfPartial(p: PositionInfo, r1: DemicalFormat, r2: DemicalFormat)
    ensures Partial(Partial(p, r1), r2) == Partial(p, r2)
  {
  }

  /** `balance()`: the whole value without a ratio, otherwise
      `value * ratio.value / 10^ratio.demical` clamped into `[0, value]`. */
  function Balance(p: PositionInfo): int
  {
    if p.ratio.None? then p.value
    else
      var bl := TDiv(p.value * p.ratio.value.value, BigintPow(10, p.ratio.value.demical));
      if bl < 0 then 0
      else if bl > p.value then p.value
      else bl
  }

  /** Without a ratio the balance is the value; with one, the balance of a
      non-negative value lies in `[0, value]`. */
  lemma BalanceBounds(p: PositionInfo)
    ensures p.ratio.None? ==> Balance(p) == p.value
    ensures p.ratio.Some? && p.value >= 0 ==> 0 <= Balance(p) <= p.value
  {
  }

  /** A ratio between 0 and 1 selects the floor of `value * ratio`. */
  lemma BalanceIsShare(p: PositionInfo)
    requires p.value >= 0 && p.ratio.Some?
    requires 0 <= p.ratio.value.value <= Power(10, p.ratio.value.demical)
    ensures var b, s := Balance(p), Power(10, p.ratio.value.demical);
      b * s <= p.value * p.ratio.value.value < (b + 1) * s
  {
    var rv, s := p.ratio.value.value, Power(10, p.ratio.value.demical);
    NonNegativeProduct(p.value, rv);
    var bl := TDiv(p.value * rv, s);
    QuotientIsFloor(p.value * rv, s, bl);
    MultiplyBoth(rv, s, p.value);
    assert p.value * rv <= p.value * s;
    assert bl * s <= p.value * s;
    CancelLe(bl, p.value, s);
  }

  /** A ratio that denotes 1 (`1`, `1.0`, `1.00`, ...) selects the whole value. */
  lemma FullRatioIsWhole(p: PositionInfo)
    requires p.value >= 0 && p.ratio.Some?
    requires p.ratio.value.value == Power(10, p.ratio.value.demical)
    ensures Balance(p) == p.value
  {
    var s := Power(10, p.ratio.value.demical);
    var bl := TDiv(p.value * s, s);
    assert bl == p.value by {
      NonNegativeProduct(p.value, s);
      QuotientIsFloor(p.value * s, s, bl);
      CancelLe(bl, p.value, s);
      CancelLt(p.value, bl + 1, s);
    }
  }

  /** `getShareCoinAmounts()`: the position's share of both reserves, by
      `balance() / lspSupply`; nothing when the supply is zero. */
  function GetShareCoinAmounts(p: PositionInfo): (int, int)
  {
    if p.poolInfo.lspSupply == 0 then (0, 0)
    else
      var t := Balance(p);
      (TDiv(t * p.poolInfo.x, p.poolInfo.lspSupply), TDiv(t * p.poolInfo.y, p.poolInfo.lspSupply))
  }

  /** A position worth no more than the supply is worth no more than the
      reserves: each amount is the floor of its reserve times
      `balance / lspSupply`. */
  lemma ShareWithinReserves(p: PositionInfo)
    requires p.poolInfo.lspSupply > 0 && p.poolInfo.x >= 0 && p.poolInfo.y >= 0
    requires 0 <= p.value <= p.poolInfo.lspSupply
    ensures var (a, b) := GetShareCoinAmounts(p);
      && 0 <= a <= p.poolInfo.x && 0 <= b <= p.poolInfo.y
      && a * p.poolInfo.lspSupply <= Balance(p) * p.poolInfo.x < (a + 1) * p.poolInfo.lspSupply
      && b * p.poolInfo.lspSupply <= Balance(p) * p.poolInfo.y < (b + 1) * p.poolInfo.lspSupply
  {
    BalanceBounds(p);
    var t, lsp := Balance(p), p.poolInfo.lspSupply;
    ShareOfReserve(t, p.poolInfo.x, lsp);
    ShareOfReserve(t, p.poolInfo.y, lsp);
  }

  lemma ShareOfReserve(t: int, r: int, lsp: int)
    requires lsp > 0 && r >= 0 && 0 <= t <= lsp
    ensures var a := TDiv(t * r, lsp);
      0 <= a <= r && a * lsp <= t * r < (a + 1) * lsp
  {
    var a := TDiv(t * r, lsp);
    NonNegativeProduct(t, r);
    QuotientIsFloor(t * r, lsp, a);
    MultiplyBoth(t, lsp, r);
    assert a * lsp <= r * lsp;
    CancelLe(a, r, lsp);
  }

  /** The whole supply is worth the whole pool. */
  lemma WholeSupplyIsWholePool(p: PositionInfo)
    requires p.poolInfo.lspSupply > 0 && p.ratio.None? && p.value == p.poolInfo.lspSupply
    ensures GetShareCoinAmounts(p) == (p.poolInfo.x, p.poolInfo.y)
  {
    var lsp := p.poolInfo.lspSupply;
    WholeShare(p.poolInfo.x, lsp);
    WholeShare(p.poolInfo.y, lsp);
  }

  lemma WholeShare(r: int, lsp: int)
    requires lsp > 0
    ensures TDiv(lsp * r, lsp) == r
  {
    var n := Abs(r);
    ProductWithPositive(r, lsp);
    DivideProduct(n, lsp);
  }

  /** Multiplying by a positive number keeps the sign and scales the
      magnitude. */
  lemma ProductWithPositive(r: int, k: int)
    requires k > 0
    ensures Abs(k * r) == Abs(r) * k && (k * r < 0 <==> r < 0)
  {
    if r < 0 {
      PositiveProduct(-r, k);
      assert k * r == -((-r) * k);
    } else {
      NonNegativeProduct(r, k);
    }
  }
}
