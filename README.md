# Suinesia swap SDK: exact-integer pricing and accounting, in Dafny

This project models the arithmetic and string core of the Suinesia swap SDK, a
TypeScript client for a constant-product and stable-swap AMM on Sui. It
covers the `bigint` and string logic only: how a pool quotes a swap, how the
stable curve's Newton iterations find `D` and the post-trade reserve, how
fixed-point decimals (`DemicalFormat`) are rendered and parsed, how reward
accumulators and positions are valued, and a few selection and validation
rules of the client. Each operation is tied to a specification function, and
lemmas state what the source promises of it. Two things are not proved: that
the Newton loops of the stable curve converge within their 256 steps, and any
bound on the stable-curve quote beyond when it fails.

Modules, one per concern of the source:

- `Js` (`js.dfy`): the JavaScript semantics the SDK relies on.
  - `Option` and `Result`. A thrown `RangeError`, or a `BigInt` division by zero, is an `Err`.
  - Truncating `BigInt` division, `TDiv`.
  - `slice`, `substring`, `indexOf` and `repeat` on strings.
- `Utils` (`utils.dfy`): `bigintPow` as the fold it is, against a recursive `Power`; `groupBy`.
- Decimal strings, in two modules:
  - `Numerals` (`numerals.dfy`): digit strings, `BigInt.toString`, and the numeral pattern `DemicalFormat.fromString` accepts. It also says which number a numeral denotes.
  - `Format` (`format.dfy`): `formatNumeric`, `truncateNumeric`, `middleEllipsis`.
- Decimal values and accumulators, in three modules:
  - `Demical`: `DemicalFormat` construction, `toString`, `fromString`, `canAlignTo` and `alignTo`.
  - `Rewards`: `ValuePerToken.diff`.
  - `Position`: `PositionInfo.partial`, `balance` and `getShareCoinAmounts`.
- `StableSwapHelper` (`stable_swap.dfy`): `compuateDNext`, `computeD`, `computeY` and `computeYDecimal`.
  - Both loops are instances of one bounded Newton loop, `NewtonLoop`: 256 steps, stopping when two iterates differ by at most 1.
  - `computeY`'s caught division keeps `c = 0`.
- `Pool`: the integer part of `PoolInfo`.
  - Availability and `isInitialized`.
  - The fee-ordered quotes `getXToYAmount`/`getYToXAmount` over `_computeAmount` and `_computeAmountStable`.
  - The integer step of the minimum-output quotes.
  - `_getPriceStableRational`.
  - The deposit helpers.
  - `getSwapDirection` and `isCapableSwappingForCoins`.
- `Common`: Move types, coins and pool types as values; `uniqArrayOn` over a model of a JavaScript `Map`; `getCoinUiDemicalStep`.
- `Transaction`: `normalizeTransactionArgument`, which rewrites an argument object in place.
- `SuiswapClient` (`client.dfy`) has four pieces:
  - `_getCoinsLargerThanBalance`;
  - the selection loop of `getGasCoin`;
  - `getExplorerHrefForTxHash`;
  - the checks `_generateMoveTransaction_Swap` makes before it looks up any coin.

How the model is built:

- **Step-by-step code becomes methods.** This covers the `formatNumeric` edits, `toString`, `fromString`, the fee deductions, `computeD`/`computeY`, the coin loops and the in-place argument update. Each method's `ensures` ties it to a specification function, and the properties are lemmas about those functions.
- **Integers are unbounded, like `BigInt`.** JavaScript `number` parameters (decimals, widths) are integers here.

## Model

| member | source | states |
|---|---|---|
| Js.TDivMeaning | src/internal/common.ts:784 | `BigInt` division truncates toward zero: the quotient's magnitude is the floor of the magnitudes' quotient and its sign is the product of the signs |
| Numerals.NatToString | src/internal/common.ts:36-38 | `BigInt.toString` of a natural number is a digit string denoting it, starting with `0` only for 0 |
| Utils.BigintPow | src/internal/utils.ts:40-42 | folding `n` copies of `a` by multiplication from 1 is `a^n` (1 when `n = 0`) |
| Utils.ProductOfCopies | src/internal/utils.ts:40-42 | folding `n` copies of `a` from any start `acc` gives `acc * a^n`, by induction on `n` |
| Utils.GroupBy | src/internal/utils.ts:33-38 | the record's keys are exactly the keys of the items, and each group is the items with that key in input order |
| Utils.Group | src/internal/utils.ts:33-38 | a group holds only items of its key and is no longer than the input |
| Utils.ItemInItsGroup | src/internal/utils.ts:33-38 | every item lands in the group of its own key |
| Utils.GroupOfMissingKey | src/internal/utils.ts:33-38 | a key no item has gets no items |
| Format.FormatNumeric | src/internal/format.ts:33-56 | the successive edits compute `Formatted(ss, width)` |
| Format.StripLeadingZerosSpec | src/internal/format.ts:36-37 | `replace(/^0+/, '')` removes exactly the leading zeros: the input is some zeros followed by a result that does not start with `0` |
| Format.StripTrailingZerosSpec | src/internal/format.ts:38-41 | `replace(/0+$/, '')` removes exactly the trailing zeros |
| Format.CanonicalWithPoint | src/internal/format.ts:36-46 | on digits `i.f`, the result is the integer digits without leading zeros (or `0`), a point, and the fraction without trailing zeros |
| Format.CanonicalWithoutPoint | src/internal/format.ts:36-46 | on a digit string without a point only the leading zeros go, and `0` stays when nothing is left |
| Format.CanonicalShape | src/internal/format.ts:42-46 | before truncation the string is never empty, never starts with `.`, and a leading `0` is alone or followed by `.` |
| Format.FormattedNotEmpty | src/internal/format.ts:46 | without a width the result is never empty |
| Format.FormattedWithinWidth | src/internal/format.ts:47-54 | with a width `w >= 0` the result is at most `w` long and a prefix of the unwidthed result |
| Format.FormattedShape | src/internal/format.ts:42-54 | a non-empty result never starts with `.`, and a leading `0` is alone or followed by `.` |
| Format.TruncationBeforePointRemoval | src/internal/format.ts:47-54 | truncation happens before the trailing-point removal: `"12.5"` at width 3 gives `"12"` |
| Format.FormattedNoTrailingPoint | src/internal/format.ts:33-56 | for a numeral and any width, the result is empty or does not end with `.`: a numeral has at most one point, and the edits add none |
| Format.CanonicalPoints | src/internal/format.ts:36-46 | the zero-stripping edits and the added leading `0` never add a point |
| Format.FormattedNumeral | src/internal/format.ts:33-56 | a numeral stays a numeral of the same number, with no redundant leading zero, no trailing fraction zero and no trailing point |
| Format.TruncateNumeric | src/internal/format.ts:28-30 | the result is the prefix of length `min(s.length, width)`, and always a prefix |
| Format.CeilHalf | src/internal/format.ts:14-16 | `Math.ceil(n / 2)`: `2r - 1 <= n <= 2r` |
| Format.MiddleEllipsis | src/internal/format.ts:3-26 | `''` for null or empty input; the input when shorter than `maxLength + 3`; otherwise a prefix, `...`, and a suffix of total length `maxLength + 3`, with the prefix length falling back to `ceil(maxLength / 2)` when absent, 0 or at least `maxLength` |
| Demical.NewDemicalFormat | src/internal/common.ts:29-32 | the constructor keeps the value and clamps a negative number of decimals to 0 |
| Demical.ToString | src/internal/common.ts:34-57 | the statements compute `Rendered(d, fixed)` |
| Demical.WithPointNumeral | src/internal/common.ts:38-40 | padding with `demical` zeros and putting a point before the last `demical` digits gives a numeral of exactly `value / 10^demical` |
| Demical.RenderedIntegral | src/internal/common.ts:35-37 | for a non-negative value with no decimals the rendering is the canonical integer |
| Demical.RenderedFractional | src/internal/common.ts:38-41 | for a non-negative value without `fixed` the rendering denotes `value / 10^demical` with the fewest decimals (no trailing fraction zero) |
| Demical.RenderedFixed | src/internal/common.ts:43-54 | for a non-negative value with `fixed` and `demical > 0` the rendering has exactly `demical` fraction digits and digits equal to `value` |
| Demical.RenderedNumeral | src/internal/common.ts:34-57 | every rendering of a non-negative value is a numeral of the same number, with no redundant leading zero |
| Demical.FromString | src/internal/common.ts:63-89 | the statements compute `Parsed(s)` |
| Demical.ParsedMeaning | src/internal/common.ts:63-89 | parsing succeeds exactly on digits with an optional `.`-fraction that do not start with `00`; the result denotes the same number, with the canonical (fewest) decimals |
| Demical.ParsedRespectsNumber | src/internal/common.ts:63-89 | two accepted strings that denote the same number parse to the same `DemicalFormat` |
| Demical.RenderedThenParsed | src/internal/common.ts:34-89 | parsing a rendering succeeds and gives back the same number, and exactly the same value when it has no redundant trailing zero |
| Demical.CanAlignTo | src/internal/common.ts:91-94 | definition, no contract of its own: the target's decimals (a number, or another format's `demical`) are at least `d.demical`; `Demical.AlignTo` succeeds exactly when it holds |
| Demical.AlignTo | src/internal/common.ts:91-100 | alignment succeeds exactly when `canAlignTo` holds (otherwise a RangeError); it then has the target decimals and the same number |
| Common.UniqArrayOn | src/internal/common.ts:11-14 | definition, no contract of its own: the values of the `Map` built by setting each item under its key, in the map's order; `Common.UniqArrayOnSpec` states what they are |
| Common.LastIndexWithKey | src/internal/common.ts:11-14 | the last index whose item has the key, or -1 |
| Common.PutIsUpdate | src/internal/common.ts:12 | `Map.set` updates an existing key in its place and appends a new key |
| Common.PutLookup | src/internal/common.ts:12 | after `set(k, t)` the key `k` maps to `t`, and every other key keeps its value |
| Common.EntriesSpec | src/internal/common.ts:12 | the map built from the items has distinct keys, each entry's value has its key, and each key maps to the last item with that key |
| Common.UniqArrayOnSpec | src/internal/common.ts:11-14 | the result has distinct keys, the same key set as the input, and for each key the last item with that key; it is no longer than the input |
| Common.GetCoinUiDemicalStep | src/internal/common.ts:846-856 | definition, no contract of its own: nothing without decimals information, `"1"` for `demical <= 0`, otherwise `0.` then `demical - 1` zeros then `1`; `Common.CoinUiDemicalStepIsOneUnit` states its meaning |
| Common.CoinUiDemicalStepIsOneUnit | src/internal/common.ts:846-856 | the step string parses to exactly one unit of the last decimal place, `1 / 10^demical` (`1` when `demical <= 0`) |
| Rewards.Diff | src/internal/common.ts:154-175 | definition, no contract of its own: `(s1*a2 - s2*a1) * mul / (a1*a2)` on the zero-state-normalised operands when the cross difference is not negative, else 0; the `Rewards.Diff*` lemmas state when it throws, its sign and that it is the floor of the rate difference |
| Rewards.Normal | src/internal/common.ts:155-163 | a zero-state accumulator (`sum = amount = 0`) is read as `0 / 1`, any other as itself |
| Rewards.DiffZeroState | src/internal/common.ts:155-163 | a zero-state operand behaves as `0 / 1` |
| Rewards.DiffFails | src/internal/common.ts:154-175 | `diff` throws exactly when the difference is not negative and the product of the amounts is 0 |
| Rewards.DiffNonNegative | src/internal/common.ts:154-175 | with non-negative amounts and multiplier, `diff` is never negative |
| Rewards.DiffOfRateNotBelow | src/internal/common.ts:169-174 | when `v2`'s rate is at least `v1`'s, `diff` is 0 (whenever it does not throw) |
| Rewards.DiffSelf | src/internal/common.ts:154-175 | `diff(v, v, m)` is 0, and throws only for a zero amount with a non-zero sum |
| Rewards.DiffIsFloor | src/internal/common.ts:165-171 | with a positive denominator, `diff` is the floor of `(s1/a1 - s2/a2) * mul` |
| Position.Partial | src/internal/common.ts:220-233 | `partial(r)` equals the position except that its ratio is `r` |
| Position.PartialOfPartial | src/internal/common.ts:220-233 | a second `partial` replaces the first ratio |
| Position.Balance | src/internal/common.ts:235-248 | definition, no contract of its own: `value` without a ratio, otherwise `value * ratio.value / 10^ratio.demical` clamped into `[0, value]`; `Position.BalanceBounds`, `Position.BalanceIsShare` and `Position.FullRatioIsWhole` state its properties |
| Position.BalanceBounds | src/internal/common.ts:235-248 | `balance()` is `value` without a ratio, and lies in `[0, value]` with one |
| Position.BalanceIsShare | src/internal/common.ts:235-248 | a ratio in `[0, 1]` selects the floor of `value * ratio` |
| Position.FullRatioIsWhole | src/internal/common.ts:235-248 | a ratio denoting 1 selects the whole value |
| Position.GetShareCoinAmounts | src/internal/common.ts:257-266 | definition, no contract of its own: `(0, 0)` for a zero LSP supply, otherwise `balance * X / supply` and `balance * Y / supply`; `Position.ShareWithinReserves` and `Position.WholeSupplyIsWholePool` state its properties |
| Position.ShareWithinReserves | src/internal/common.ts:257-266 | for a positive LSP supply, non-negative reserves and a value in `[0, lspSupply]`, each share amount is the floor of `balance/lspSupply` of its reserve, so it lies within the reserve |
| Position.WholeSupplyIsWholePool | src/internal/common.ts:257-266 | the whole supply is worth both whole reserves |
| Pool.GetNotAvailableForSwapReason | src/internal/common.ts:463-472 | definition, no contract of its own: `Freeze` for a frozen pool, else `Empty` when a reserve is 0, else nothing; `Pool.AvailabilityReasons` states it |
| Pool.IsAvailableForSwap | src/internal/common.ts:459-461 | definition, no contract of its own: available exactly when there is no reason against it |
| Pool.IsInitialized | src/internal/common.ts:753-755 | definition, no contract of its own: both reserves are positive |
| Pool.AvailabilityReasons | src/internal/common.ts:460-473 | `Freeze` exactly when frozen (checked first), `Empty` exactly when not frozen and a reserve is 0; available exactly when neither |
| Pool.InitializedAndAvailable | src/internal/common.ts:753-755 | an initialised pool that is not frozen is available; an available pool is uninitialised only with a negative reserve |
| Pool.ComputeAmount | src/internal/common.ts:775-780 | definition, no contract of its own: `y*dx / (x+dx)`, a division error when `x + dx = 0`; `Pool.ConstantProduct` and `Pool.ComputeAmountMonotonic` state its properties |
| Pool.ComputeAmountStable | src/internal/common.ts:782-785 | definition, no contract of its own: `computeY` on `dx*x_scale`, `x*x_scale`, `y*y_scale` divided by `y_scale`; `Pool.StableQuoteFails` and `Pool.StableQuoteAtDecimalScales` state its properties |
| Pool.StableQuoteFails | src/internal/common.ts:782-785 | the stable quote fails exactly when `computeY` fails on the scaled amounts or `y_scale` is 0, always with a zero amplification, and with both scales 1 it is `computeY` itself |
| Pool.StableQuoteAtDecimalScales | src/internal/common.ts:782-785 | at the scales `10^(max(xd, yd) - xd)` and `10^(max(xd, yd) - yd)` the stable quote is `computeYDecimal(dx, x, y, A, xd, yd)` |
| Pool.Curve | src/internal/common.ts:546 | definition, no contract of its own: `_computeAmount` for a v2 pool, `_computeAmountStable` with the pool's amplification otherwise |
| Pool.ConstantProduct | src/internal/common.ts:775-780 | the constant-product amount is in `[0, y)` and never lowers `x * y` |
| Pool.ComputeAmountMonotonic | src/internal/common.ts:775-780 | a larger input never buys less |
| Pool.TakeFeeBounds | src/internal/common.ts:536-544 | a fee step keeps `amt - floor(amt * bps / 10000)`, between 0 and `amt` for a fee in `[0, 100%]`; a zero fee keeps the amount |
| Pool.TakeFeeMonotonic | src/internal/common.ts:536-544 | a fee step in `[0, 100%]` keeps the order of non-negative amounts |
| Pool.SideFeesMonotonic | src/internal/common.ts:535-541 | the admin-fee then token-holder-fee deductions keep the order of non-negative amounts, and keep them non-negative |
| Pool.ChargeSideFees | src/internal/common.ts:535-541 | the admin-fee then token-holder-fee deductions compute `SideFees` |
| Pool.GetXToYAmount | src/internal/common.ts:527-557 | the statements compute `XToYAmount` |
| Pool.GetYToXAmount | src/internal/common.ts:559-588 | the statements compute `YToXAmount` |
| Pool.XToYAmount | src/internal/common.ts:527-557 | definition, no contract of its own: side fees on the input when fees are in X, then the LP fee, then the curve, then side fees on the output when fees are in Y; a curve error passes through |
| Pool.YToXAmount | src/internal/common.ts:559-588 | definition, no contract of its own: the same steps with X and Y exchanged; `Pool.YToXIsMirrored` states it |
| Pool.YToXIsMirrored | src/internal/common.ts:559-588 | the Y-to-X quote is the X-to-Y quote of the mirrored pool |
| Pool.FeeFreeQuote | src/internal/common.ts:527-557 | with all fees 0 on a v2 pool the quote is `Y * dx / (X + dx)` |
| Pool.QuoteWithinReserve | src/internal/common.ts:527-557 | on a v2 pool with fees in `[0, 100%]` the quote is defined, below the output reserve and at most the fee-free amount |
| Pool.XToYAmountMonotonic | src/internal/common.ts:527-557 | on a v2 pool with positive reserves and fees in `[0, 100%]`, a larger input never quotes a smaller output, fees included |
| Pool.YToXAmountMonotonic | src/internal/common.ts:559-588 | the same for the Y-to-X quote |
| Pool.XToYMinOutputAmount | src/internal/common.ts:590-593 | definition, no contract of its own: the X-to-Y quote times `k / 1e9`, its error passed through; `Pool.MinOutputAmounts` states its properties |
| Pool.YToXMinOutputAmount | src/internal/common.ts:595-598 | definition, no contract of its own: the Y-to-X quote times `k / 1e9`, its error passed through |
| Pool.MinOutputWithinQuote | src/internal/common.ts:590-598 | a slippage factor in `[0, 1e9]` keeps the minimum output in `[0, quote]`, and the whole quote at `1e9` |
| Pool.MinOutputAmounts | src/internal/common.ts:590-598 | the minimum output fails exactly when the quote does, and a non-negative quote bounds it |
| Pool.PriceStableRational | src/internal/common.ts:492-513 | definition, no contract of its own: both reserves brought to the larger number of decimals, `D` from `computeD`, and `(pn, pd)` from lines 505-510; `Pool.BalancedPriceIsOne` states its value on a balanced pool |
| Pool.BalancedPrice | src/internal/common.ts:503-512 | for equal aligned reserves, the price pair from `D = 2b` has equal positive numerator and denominator |
| Pool.BalancedPriceIsOne | src/internal/common.ts:492-513 | a stable pool with equal reserves and equal decimals is priced at exactly 1 |
| Pool.DepositAmount | src/internal/common.ts:731-751 | definition, no contract of its own: `(0, 0)` before the guard passes, then the branch on `getDepositXAmount(yMax) > xMax` with each clamp; `Pool.DepositWithinCaps` states its properties |
| Pool.GetDepositAmount | src/internal/common.ts:731-751 | the statements compute `DepositAmount` |
| Pool.DepositWithinCaps | src/internal/common.ts:721-751 | `(0, 0)` for an uninitialised pool or a cap `<= 0`; otherwise both amounts within their caps, one equal to its cap, and the other the pool-ratio amount for it rounded down: `y*X <= x*Y < (y+1)*X` or `x*Y <= y*X < (x+1)*Y` |
| Pool.RatioBelowCap | src/internal/common.ts:739-742 | when `yMax` asks for more X than `xMax` (the branch at line 739), the Y amount for `xMax` is below `yMax`, so the clamp at line 742 never applies |
| Pool.GetSwapDirection | src/internal/common.ts:757-767 | definition, no contract of its own: `forward` for the pool's order, `reverse` for the swapped order, nothing otherwise; `Pool.SwapDirectionSpec` states it |
| Pool.SwapDirectionSpec | src/internal/common.ts:757-767 | a direction exists exactly when the pair is the pool's pair in some order; `forward` exactly for the pool's order |
| Pool.IsCapableSwappingForCoins | src/internal/common.ts:769-773 | definition, no contract of its own: as written, initialised and available and the forward pair, or else the reversed pair on its own |
| Pool.FrozenPoolAcceptsReversedPair | src/internal/common.ts:769-773 | as written, a frozen empty pool still accepts its coins in reversed order |
| Pool.IsCapableSwappingForCoinsIntended | src/internal/common.ts:769-773 | definition, no contract of its own: initialised and available, and the pair in either order |
| Pool.CapableMeansSwappable | src/internal/common.ts:769-773 | the intended check accepts exactly a swap direction on an initialised, unfrozen pool; on a pool that can swap it agrees with the written one |
| StableSwapHelper.ComputeDNext | src/internal/utils.ts:45-50 | throws exactly on a zero denominator `d(2A - 1) + 3 dProd`; non-negative for positive `d` and `A >= 1` |
| StableSwapHelper.DPass | src/internal/utils.ts:60-64 | one pass builds `dProd` and the next `d`; a zero reserve throws |
| StableSwapHelper.ComputeD | src/internal/utils.ts:52-72 | the loop computes `ComputeDSpec`: 0 when `b + q = 0`, a division error when one reserve is 0, otherwise the bounded Newton loop from `b + q` |
| StableSwapHelper.NewtonLoopStopsAtFirstConvergence | src/internal/utils.ts:59-69 | the loop returns the iterate after the first step of at most 1, if that comes within the budget |
| StableSwapHelper.NewtonLoopExhausted | src/internal/utils.ts:59-69 | when no step within the budget converges, the result is the 256th iterate |
| StableSwapHelper.BalancedPoolD | src/internal/utils.ts:52-72 | for equal reserves `b` and `A >= 1`, `D` is `2b` |
| StableSwapHelper.ComputeY | src/internal/utils.ts:74-107 | the statements compute `ComputeYSpec`; `A = 0` is an error |
| StableSwapHelper.SolveY | src/internal/utils.ts:80-106 | from `D`, the statements compute `c`, `b` and then `y - y' - 1` |
| StableSwapHelper.ComputeYCaughtDivision | src/internal/utils.ts:80-89 | when `x + dx = 0` the caught division leaves `c = 0` |
| StableSwapHelper.ComputeYNeedsAmplification | src/internal/utils.ts:74-89 | with `A = 0` `computeY` throws, whatever the amounts |
| StableSwapHelper.IterateY | src/internal/utils.ts:94-104 | the loop is the bounded Newton loop over `y' := (y'^2 + c) / (2y' + b - D)` from `D` |
| StableSwapHelper.ComputeYDecimal | src/internal/utils.ts:115-121 | definition, no contract of its own: both coins brought to `max(xd, yd)` decimals, `computeY`, and the result divided by `y`'s scale; the next two lemmas state its two cases |
| StableSwapHelper.ComputeYDecimalAligned | src/internal/utils.ts:115-121 | when `x` has no more decimals than `y`, `dx` and `x` are scaled by `10^(yd - xd)` and nothing is divided; equal decimals give plain `computeY` |
| StableSwapHelper.ComputeYDecimalScaledBack | src/internal/utils.ts:115-121 | when `x` has more decimals, `y` is scaled up by `10^(xd - yd)` and the result divided back by it |
| Transaction.Normalized | src/internal/transaction.ts:87-97 | definition, no contract of its own: for an address or object argument whose value prints as `@` or `$sender`, the package address or the sender; any other value unchanged |
| Transaction.NormalizeTransactionArgument | src/internal/transaction.ts:85-98 | the same argument object is returned, its tag unchanged and its value replaced by `Normalized` |
| Transaction.NormalizedPlaceholders | src/internal/transaction.ts:87-97 | `@` becomes the package address and `$sender` the sender in address and object arguments; other values and other tags stay |
| Transaction.NumberIsNoPlaceholder | src/internal/transaction.ts:88 | no number prints as `@` or `$sender` |
| Transaction.NormalizedIdempotent | src/internal/transaction.ts:85-98 | when neither replacement is a placeholder, normalising twice is normalising once |
| SuiswapClient.SortByBalance | src/internal/suiswap-client.ts:740-741 | the sorted copy has as many coins as the input; `SuiswapClient.SortByBalanceSpec` states that it is an ascending permutation |
| SuiswapClient.SortByBalanceSpec | src/internal/suiswap-client.ts:740-741 | sorting a copy by balance gives an ascending permutation with the same total |
| SuiswapClient.GetCoinsLargerThanBalance | src/internal/suiswap-client.ts:739-754 | the result is a prefix of the sorted coins whose total is the returned balance; every proper prefix is below the target; stopping early means the target is reached; with non-negative coins whose total is below the target, every coin is taken |
| SuiswapClient.Filter | src/internal/suiswap-client.ts:513-515 | `filter` keeps exactly the elements satisfying the predicate |
| SuiswapClient.MinimumGasCoinIndex | src/internal/suiswap-client.ts:517-524 | the index of a smallest balance covering the gas, the first among equals, or -1 exactly when none covers it |
| SuiswapClient.GetGasCoin | src/internal/suiswap-client.ts:510-531 | nothing exactly when no primary, non-excluded coin covers the gas; otherwise such a coin with the smallest balance, the first among equals |
| SuiswapClient.GetExplorerHrefForTxHash | src/internal/suiswap-client.ts:351-365 | the statements compute `ExplorerHref`: base, hash and network suffix, with `mainnet` mapped to `network=devnet` |
| SuiswapClient.ExplorerHref | src/internal/suiswap-client.ts:351-365 | definition, no contract of its own: the base, the hash and the network suffix, as written with no `?` |
| SuiswapClient.ExplorerHrefRunsIntoHash | src/internal/suiswap-client.ts:364 | as written, two different hashes and networks yield the same link |
| SuiswapClient.ExplorerHrefIntended | src/internal/suiswap-client.ts:364 | definition, no contract of its own: the base, the hash, then `?` and the suffix when there is one |
| SuiswapClient.ExplorerHrefIntendedSeparates | src/internal/suiswap-client.ts:364 | with a `?` before the suffix, the link determines the hash and the network suffix |
| SuiswapClient.ValidateSwap | src/internal/suiswap-client.ts:757-767 | definition, no contract of its own: the amount check, then the minimum-output check, then the frozen-pool check, the first failing one reported |
| SuiswapClient.ValidateSwapSpec | src/internal/suiswap-client.ts:757-767 | a request passes exactly when the amount is a positive u64, the minimum output (if given) is a u64 and the pool is not frozen; each rejection exactly when its check fails and the earlier checks pass: `InvalidAmount` for a bad amount, `InvalidMinOutputAmount` for a good amount and a bad minimum output, `FrozenPool` for both good and a frozen pool |
| SuiswapClient.U64MaxIsLargestU64 | src/internal/constants.ts:30 | `U64_MAX` is `2^64 - 1` |

## Left out

- RPC reads, pagination, object deserialisation (`mapResponseTo*`) and transaction-block construction: these are network I/O and calls into `@mysten/sui.js`. The coins `getGasCoin` chooses from are a parameter, so its `address` kind, which fetches them, is not modelled.
- Floating-point display math: `getPrice`, `_getPriceGeneral`, `_getPriceStable`'s `Number(pn)/Number(pd)`, `getShareRatio`, `toNumber`, `_volumeToValue`, `getTvl` and `getTradeVolumne*`. The `Math.round` slippage factor of `getXToYMinOutputAmount`/`getYToXMinOutputAmount` is an integer parameter `k`.
- `getApr` returns null; the rest of it is commented out.
- `computeDDecimal` has no `return` and yields nothing.
- `getPrimaryCoinPrice` uses `Math.random`.
- `retry`, `delay` and `formatTimestamp`: async timing, clocks and time zones.
- Debug logging and console output, including the `console.log` in `computeY`'s `catch` and the `console.warn` in `middleEllipsis`.
- Thrown error message texts: the model reports a rejection kind or an error kind.
- `MoveType` normalisation (`normalizeSuiObjectId`). A Move type is an opaque triple compared field by field.
- `equals` and `uuid` string helpers.
- Utils.BigintPow: takes a natural exponent. `Array(n)` with a negative `n` throws a RangeError; that case is modelled only where it can arise, in `Demical.AlignTo`.
- Utils.GroupBy: plain record keys are coerced to strings, so keys `1` and `"1"` would share a group; keys here are compared by value. The record's key order is not modelled (the result is a `map`).
- Common.UniqArrayOnSpec: states the key set and the last item for each key. It does not state that keys come out in order of first appearance, though `Common.PutIsUpdate` gives that order step by step.
- Numerals.ParseBigInt: `BigInt(string)` is modelled for digit strings only. Every string that reaches it here is one; signs, white space and radix prefixes are not modelled.
- Demical.RenderedNumeral: proved for non-negative values only, as are Demical.RenderedIntegral, Demical.RenderedFractional and Demical.RenderedFixed. For a negative value the model follows the source, which puts the minus sign after the point: by the model's definitions, value -5 with 2 decimals renders as `0.-5`. No property is stated about such strings.
- Js.Slice, Js.Substring, Js.IndexOf, Format.TruncateNumeric, Format.MiddleEllipsis and Format.FormatNumeric's width: a string is a sequence of Unicode scalar values, so lengths and cut points count code points, whereas JavaScript's `length`, `slice` and `substring` count UTF-16 code units. The two agree on text in the Basic Multilingual Plane, which covers every numeral, address and hash this core handles. Outside it they differ: ten copies of an emoji are 20 code units, so `middleEllipsis` with its default `maxLength` of 14 abbreviates them (splitting a surrogate pair), while the model sees length 10 and returns them unchanged.
- Format.MiddleEllipsis: the shape of the abbreviated result is stated only for a non-negative `maxLength` and `maxLengthBeginning`. For negative ones the method follows `substring`'s clamping, but no property is stated.
- Pool.StableQuoteFails: the stable-curve quote is characterised by when it fails and by its agreement with `computeYDecimal`; no bound on its value (within the reserve, monotonic in the input) is stated, because that rests on the convergence of the Newton loops, which is not proved.
- StableSwapHelper.ComputeD: its value is stated in closed form only for a balanced pool (`StableSwapHelper.BalancedPoolD`). In general it is stated as the bounded Newton loop. Convergence within 256 steps is not proved.
- SuiswapClient.SortByBalanceSpec: the sort is the stable insertion sort `Array.prototype.sort` must be, but stability is not stated as a separate property.
- The mapping of `mainnet` to `network=devnet` in the explorer link is kept as written.

## Findings

| source | as written | input that shows it | evidently intended | confidence | as-written member | corrected member |
|---|---|---|---|---|---|---|
| src/internal/common.ts:772 | `a && b && (forward pair) \|\| (reversed pair)`: `&&` binds tighter than `\|\|`, so the reversed pair is accepted regardless of the pool's state | a frozen pool with zero reserves, and the coins `(y, x)` | the pool must be initialised and available for either order of the pair | not executed | Pool.IsCapableSwappingForCoins, Pool.FrozenPoolAcceptsReversedPair | Pool.IsCapableSwappingForCoinsIntended, Pool.CapableMeansSwappable |
| src/internal/suiswap-client.ts:364 | the suffix `network=...` is appended straight after the hash, with no `?` | hash `abc` on `devnet` and hash `abcnetwork=devnet` with no endpoint give the same link | `.../transactions/<hash>?network=<net>` | not executed | SuiswapClient.ExplorerHref, SuiswapClient.ExplorerHrefRunsIntoHash | SuiswapClient.ExplorerHrefIntended, SuiswapClient.ExplorerHrefIntendedSeparates |
