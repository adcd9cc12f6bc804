/** The selection and validation rules of `src/internal/suiswap-client.ts`:
    coins covering a target balance, the gas coin, the explorer link of a
    transaction, and the checks a swap request passes before any balance is
    looked up. */
module SuiswapClient {
  import opened Js
  import opened Utils
  import opened Common
  import opened Pool

  /** `NumberLimit.U64_MAX`. */
  const U64Max: int := 18446744073709551615

  // ---------------------------------------------------------------------------
  // _getCoinsLargerThanBalance
  // ---------------------------------------------------------------------------

  /** The total balance of some coins. */
  function Sum(cs: seq<CoinInfo>): int
  {
    if cs == [] then 0 else Sum(cs[..|cs| - 1]) + cs[|cs| - 1].balance
  }

  predicate SortedByBalance(cs: seq<CoinInfo>)
  {
    forall i, j :: 0 <= i < j < |cs| ==> cs[i].balance <= cs[j].balance
  }

  /** Places `c` after every coin whose balance is not larger. */
  function Insert(s: seq<CoinInfo>, c: CoinInfo): (r: seq<CoinInfo>)
    ensures |r| == |s| + 1
  {
    if s == [] || s[|s| - 1].balance <= c.balance then s + [c]
    else Insert(s[..|s| - 1], c) + [s[|s| - 1]]
  }

  /** `[...cs].sort(byBalance)`: a stable sort of a copy by ascending balance
      (`Array.prototype.sort` is stable), here as insertion sort. */
  function SortByBalance(cs: seq<CoinInfo>): (r: seq<CoinInfo>)
    ensures |r| == |cs|
  {
    if cs == [] then [] else Insert(SortByBalance(cs[..|cs| - 1]), cs[|cs| - 1])
  }

  lemma SumAppend(s: seq<CoinInfo>, c: CoinInfo)
    ensures Sum(s + [c]) == Sum(s) + c.balance
  {
    assert (s + [c])[..|s|] == s;
  }

  lemma {:induction false} InsertMultiset(s: seq<CoinInfo>, c: CoinInfo)
    ensures multiset(Insert(s, c)) == multiset(s) + multiset{c}
    ensures Sum(Insert(s, c)) == Sum(s) + c.balance
  {
    if s == [] || s[|s| - 1].balance <= c.balance {
      SumAppend(s, c);
    } else {
      var init, last := s[..|s| - 1], s[|s| - 1];
      InsertMultiset(init, c);
      assert s == init + [last];
      SumAppend(Insert(init, c), last);
      SumAppend(init, last);
    }
  }

  lemma {:induction false} InsertSorted(s: seq<CoinInfo>, c: CoinInfo)
    requires SortedByBalance(s)
    ensures SortedByBalance(Insert(s, c))
  {
    if s != [] && s[|s| - 1].balance > c.balance {
      var init, last := s[..|s| - 1], s[|s| - 1];
      InsertSorted(init, c);
      InsertAtMost(init, c, last.balance);
      var t := Insert(init, c);
      assert Insert(s, c) == t + [last];
      SortedAppend(t, last);
    }
  }

  /** Every coin of `s` has a balance of at most `b`. */
  predicate AllAtMost(s: seq<CoinInfo>, b: int)
  {
    forall i :: 0 <= i < |s| ==> s[i].balance <= b
  }

  lemma {:induction false} InsertAtMost(s: seq<CoinInfo>, c: CoinInfo, b: int)
    requires AllAtMost(s, b) && c.balance <= b
    ensures AllAtMost(Insert(s, c), b)
  {
    if s != [] && s[|s| - 1].balance > c.balance {
      var init, last := s[..|s| - 1], s[|s| - 1];
      InsertAtMost(init, c, b);
      assert Insert(s, c) == Insert(init, c) + [last];
    }
  }

  lemma SortedAppend(t: seq<CoinInfo>, c: CoinInfo)
    requires SortedByBalance(t) && AllAtMost(t, c.balance)
    ensures SortedByBalance(t + [c])
  {
  }

  /** Sorting keeps the coins and their total, and orders them by balance. */
  lemma SortByBalanceSpec(cs: seq<CoinInfo>)
    ensures SortedByBalance(SortByBalance(cs))
    ensures multiset(SortByBalance(cs)) == multiset(cs)
    ensures Sum(SortByBalance(cs)) == Sum(cs)
  {
    SortByBalanceSorted(cs);
    SortByBalanceKeeps(cs);
  }

  lemma {:induction false} SortByBalanceSorted(cs: seq<CoinInfo>)
    ensures SortedByBalance(SortByBalance(cs))
  {
    if cs != [] {
      SortByBalanceSorted(cs[..|cs| - 1]);
      InsertSorted(SortByBalance(cs[..|cs| - 1]), cs[|cs| - 1]);
    }
  }

  lemma {:induction false} SortByBalanceKeeps(cs: seq<CoinInfo>)
    ensures multiset(SortByBalance(cs)) == multiset(cs)
    ensures Sum(SortByBalance(cs)) == Sum(cs)
  {
    if cs != [] {
      var init, last := cs[..|cs| - 1], cs[|cs| - 1];
      SortByBalanceKeeps(init);
      InsertMultiset(SortByBalance(init), last);
      LastSplit(cs);
    }
  }

  lemma LastSplit(cs: seq<CoinInfo>)
    requires cs != []
    ensures multiset(cs) == multiset(cs[..|cs| - 1]) + multiset{cs[|cs| - 1]}
  {
    assert cs == cs[..|cs| - 1] + [cs[|cs| - 1]];
  }

  /** With no negative balance a prefix of the coins totals no more than
      all of them. */
  lemma {:induction false} PrefixSumBound(cs: seq<CoinInfo>, k: nat)
    requires k <= |cs|
    requires forall i :: 0 <= i < |cs| ==> cs[i].balance >= 0
    ensures Sum(cs[..k]) <= Sum(cs)
  {
    if k < |cs| {
      var init := cs[..|cs| - 1];
      assert init[..k] == cs[..k];
      PrefixSumBound(init, k);
    } else {
      assert cs[..k] == cs;
    }
  }

  /** `_getCoinsLargerThanBalance(cs, targetBalance)`: the smallest coins,
      taken in ascending order while the running total is below the target.
      `cs` itself is a value and is not reordered. */
  method GetCoinsLargerThanBalance(cs: seq<CoinInfo>, targetBalance: int)
    returns (cs2: seq<CoinInfo>, balance: int)
    ensures |cs2| <= |cs| && cs2 == SortByBalance(cs)[..|cs2|]
    ensures balance == Sum(cs2)
    ensures forall k :: 0 <= k < |cs2| ==> Sum(cs2[..k]) < targetBalance
    ensures |cs2| < |cs| ==> balance >= targetBalance
    ensures (forall i :: 0 <= i < |cs| ==> cs[i].balance >= 0) && Sum(cs) < targetBalance ==>
      cs2 == SortByBalance(cs)
  {
    var cs1 := SortByBalance(cs);
    cs2 := [];
    balance := 0;
    var i := 0;
    while i < |cs1|
      invariant 0 <= i <= |cs1|
      invariant cs2 == cs1[..i]
      invariant balance == Sum(cs2)
      invariant forall k :: 0 <= k < i ==> Sum(cs2[..k]) < targetBalance
    {
      if balance >= targetBalance {
        break;
      }
      var coin := cs1[i];
      TakeCoin(cs2, coin, targetBalance);
      cs2 := cs2 + [coin];
      balance := balance + coin.balance;
      i := i + 1;
    }
    if (forall i :: 0 <= i < |cs| ==> cs[i].balance >= 0) && Sum(cs) < targetBalance {
      AllCoinsTaken(cs, cs2, targetBalance);
    }
  }

  /** One more coin keeps every proper prefix below the target. */
  lemma TakeCoin(cs2: seq<CoinInfo>, coin: CoinInfo, targetBalance: int)
    requires Sum(cs2) < targetBalance
    requires forall k :: 0 <= k < |cs2| ==> Sum(cs2[..k]) < targetBalance
    ensures Sum(cs2 + [coin]) == Sum(cs2) + coin.balance
    ensures forall k :: 0 <= k < |cs2| + 1 ==> Sum((cs2 + [coin])[..k]) < targetBalance
  {
    SumAppend(cs2, coin);
    forall k | 0 <= k < |cs2| + 1 ensures Sum((cs2 + [coin])[..k]) < targetBalance {
      if k < |cs2| {
        assert (cs2 + [coin])[..k] == cs2[..k];
      } else {
        assert (cs2 + [coin])[..k] == cs2;
      }
    }
  }

  /** When all the coins together fall short of the target, a stopped loop
      would have reached it, so every coin is taken. */
  lemma AllCoinsTaken(cs: seq<CoinInfo>, cs2: seq<CoinInfo>, targetBalance: int)
    requires forall i :: 0 <= i < |cs| ==> cs[i].balance >= 0
    requires Sum(cs) < targetBalance
    requires |cs2| <= |cs| && cs2 == SortByBalance(cs)[..|cs2|]
    requires |cs2| < |cs| ==> Sum(cs2) >= targetBalance
    ensures cs2 == SortByBalance(cs)
  {
    var cs1 := SortByBalance(cs);
    SortedNonNegative(cs);
    PrefixTaken(cs1, cs2, targetBalance);
  }

  /** Sorting keeps the balances non-negative and the total unchanged. */
  lemma SortedNonNegative(cs: seq<CoinInfo>)
    requires forall i :: 0 <= i < |cs| ==> cs[i].balance >= 0
    ensures forall j :: 0 <= j < |SortByBalance(cs)| ==> SortByBalance(cs)[j].balance >= 0
    ensures Sum(SortByBalance(cs)) == Sum(cs)
  {
    var cs1 := SortByBalance(cs);
    SortByBalanceKeeps(cs);
    forall j | 0 <= j < |cs1| ensures cs1[j].balance >= 0 {
      assert cs1[j] in multiset(cs);
    }
  }

  lemma PrefixTaken(cs1: seq<CoinInfo>, cs2: seq<CoinInfo>, targetBalance: int)
    requires forall j :: 0 <= j < |cs1| ==> cs1[j].balance >= 0
    requires Sum(cs1) < targetBalance
    requires |cs2| <= |cs1| && cs2 == cs1[..|cs2|]
    requires |cs2| < |cs1| ==> Sum(cs2) >= targetBalance
    ensures cs2 == cs1
  {
    PrefixSumBound(cs1, |cs2|);
    assert cs1[..|cs1|] == cs1;
  }

  // ---------------------------------------------------------------------------
  // getGasCoin
  // ---------------------------------------------------------------------------

  /** `Array.prototype.filter`. */
  function Filter(s: seq<CoinInfo>, keep: CoinInfo -> bool): (r: seq<CoinInfo>)
    ensures forall x :: x in r <==> x in s && keep(x)
  {
    if s == [] then []
    else Filter(s[..|s| - 1], keep) + (if keep(s[|s| - 1]) then [s[|s| - 1]] else [])
  }

  /** The coins `getGasCoin` chooses among: those of the primary coin type
      whose address is not excluded. */
  function GasCandidates(coins: seq<CoinInfo>, primaryCoinType: CoinType, excludeCoinsAddresses: seq<string>)
    : seq<CoinInfo>
  {
    var primaryCoins := Filter(coins, (c: CoinInfo) => c.coinType == primaryCoinType);
    Filter(primaryCoins, (c: CoinInfo) => c.addr !in excludeCoinsAddresses)
  }

  /** The `forEach` of `getGasCoin`: the index of a coin covering the gas with
      the smallest balance, the first one among equals, or -1. */
  method MinimumGasCoinIndex(cs: seq<CoinInfo>, estimateGas: int) returns (idx: int)
    ensures -1 <= idx < |cs|
    ensures idx == -1 <==> forall j :: 0 <= j < |cs| ==> cs[j].balance < estimateGas
    ensures idx >= 0 ==> cs[idx].balance >= estimateGas
    ensures idx >= 0 ==> forall j :: 0 <= j < |cs| && cs[j].balance >= estimateGas ==>
      cs[idx].balance <= cs[j].balance
    ensures idx >= 0 ==> forall j :: 0 <= j < idx && cs[j].balance >= estimateGas ==>
      cs[idx].balance < cs[j].balance
  {
    idx := -1;
    for i := 0 to |cs|
      invariant -1 <= idx < i
      invariant idx == -1 <==> forall j :: 0 <= j < i ==> cs[j].balance < estimateGas
      invariant idx >= 0 ==> cs[idx].balance >= estimateGas
      invariant idx >= 0 ==> forall j :: 0 <= j < i && cs[j].balance >= estimateGas ==>
        cs[idx].balance <= cs[j].balance
      invariant idx >= 0 ==> forall j :: 0 <= j < idx && cs[j].balance >= estimateGas ==>
        cs[idx].balance < cs[j].balance
    {
      var coin := cs[i];
      if coin.balance >= estimateGas {
        if idx < 0 || cs[idx].balance > coin.balance {
          idx := i;
        }
      }
    }
  }

  /** The selection of `getGasCoin` for a given coin list: the candidate with
      the smallest balance that covers `estimateGas`, the first among equals,
      or nothing when no candidate covers it. */
  method GetGasCoin(coins: seq<CoinInfo>, primaryCoinType: CoinType, excludeCoinsAddresses: seq<string>,
                    estimateGas: int) returns (r: Option<CoinInfo>)
    ensures var cands := GasCandidates(coins, primaryCoinType, excludeCoinsAddresses);
      r.None? <==> forall c :: c in cands ==> c.balance < estimateGas
    ensures var cands := GasCandidates(coins, primaryCoinType, excludeCoinsAddresses);
      r.Some? ==>
        && r.value.coinType == primaryCoinType && r.value.addr !in excludeCoinsAddresses
        && r.value in coins && r.value.balance >= estimateGas
        && (forall c :: c in cands && c.balance >= estimateGas ==> r.value.balance <= c.balance)
        && exists i :: 0 <= i < |cands| && cands[i] == r.value
             && forall j :: 0 <= j < i && cands[j].balance >= estimateGas ==>
                  r.value.balance < cands[j].balance
  {
    var primaryCoins := Filter(coins, (c: CoinInfo) => c.coinType == primaryCoinType);
    var primaryCoinsFiltered := Filter(primaryCoins, (c: CoinInfo) => c.addr !in excludeCoinsAddresses);
    var minimumGasCoinIndex := MinimumGasCoinIndex(primaryCoinsFiltered, estimateGas);
    if minimumGasCoinIndex < 0 {
      forall c: CoinInfo | c in primaryCoinsFiltered ensures c.balance < estimateGas {
        var j :| 0 <= j < |primaryCoinsFiltered| && primaryCoinsFiltered[j] == c;
      }
      return None;
    }
    var coin := primaryCoinsFiltered[minimumGasCoinIndex];
    assert coin in primaryCoinsFiltered;
    assert coin in primaryCoins;
    forall c: CoinInfo | c in primaryCoinsFiltered && c.balance >= estimateGas ensures coin.balance <= c.balance {
      var j :| 0 <= j < |primaryCoinsFiltered| && primaryCoinsFiltered[j] == c;
    }
    return Some(coin);
  }

  // ---------------------------------------------------------------------------
  // getExplorerHrefForTxHash
  // ---------------------------------------------------------------------------

  datatype EndPointType = Mainnet | Testnet | Devnet

  const ExplorerBase: string := "https://explorer.sui.io/transactions/"

  /** The network query of the explorer link, as written: `mainnet` maps to
      `network=devnet` too. */
  function Suffix(endPointType: Option<EndPointType>): string
  {
    match endPointType
    case None => ""
    case Some(Mainnet) => "network=devnet"
    case Some(Testnet) => "network=testnet"
    case Some(Devnet) => "network=devnet"
  }

  /** The link `getExplorerHrefForTxHash` builds, as written: the suffix is
      appended to the hash with no `?` between them. */
  function ExplorerHref(txHash: string, endPointType: Option<EndPointType>): string
  {
    ExplorerBase + txHash + Suffix(endPointType)
  }

  /** `getExplorerHrefForTxHash(txHash, endPointType)`, statement by statement. */
  method GetExplorerHrefForTxHash(txHash: string, endPointType: Option<EndPointType>) returns (href: string)
    ensures href == ExplorerHref(txHash, endPointType)
  {
    var suffix := "";
    if endPointType.Some? {
      if endPointType.value == Mainnet {
        suffix := "network=devnet";
      } else if endPointType.value == Testnet {
        suffix := "network=testnet";
      } else if endPointType.value == Devnet {
        suffix := "network=devnet";
      }
    }
    return ExplorerBase + txHash + suffix;
  }

  /** As written, the link of one transaction on devnet is the link of
      another transaction with no network: the hash cannot be told apart from
      the query. */
  lemma ExplorerHrefRunsIntoHash()
    ensures ExplorerHref("abc", Some(Devnet)) == ExplorerHref("abcnetwork=devnet", None)
    ensures Suffix(Some(Mainnet)) == Suffix(Some(Devnet)) == "network=devnet"
  {
  }

  /** The evidently intended link: the network is a query after `?`. */
  function ExplorerHrefIntended(txHash: string, endPointType: Option<EndPointType>): string
  {
    ExplorerBase + txHash + Query(Suffix(endPointType))
  }

  /** `?` and the query, or nothing for an empty query. */
  function Query(suffix: string): string
  {
    if suffix == "" then "" else "?" + suffix
  }

  /** With the `?`, a hash without `?` is recovered from the link, and so is
      the network query. */
  lemma ExplorerHrefIntendedSeparates(h1: string, e1: Option<EndPointType>, h2: string, e2: Option<EndPointType>)
    requires '?' !in h1 && '?' !in h2
    requires ExplorerHrefIntended(h1, e1) == ExplorerHrefIntended(h2, e2)
    ensures h1 == h2 && Suffix(e1) == Suffix(e2)
  {
    QuerySeparates(ExplorerBase, h1, Suffix(e1), h2, Suffix(e2));
  }

  lemma QuerySeparates(a: string, h1: string, s1: string, h2: string, s2: string)
    requires '?' !in h1 && '?' !in h2
    requires a + h1 + Query(s1) == a + h2 + Query(s2)
    ensures h1 == h2 && s1 == s2
  {
    var t1, t2 := Query(s1), Query(s2);
    assert a + h1 + t1 == a + (h1 + t1);
    assert a + h2 + t2 == a + (h2 + t2);
    DropPrefix(a, h1 + t1, h2 + t2);
    SplitAtMark(h1, t1, h2, t2);
    if t1 != "" {
      assert s1 == t1[1..] && s2 == t2[1..];
    }
  }

  lemma DropPrefix(a: string, w1: string, w2: string)
    requires a + w1 == a + w2
    ensures w1 == w2
  {
    assert w1 == (a + w1)[|a|..];
    assert w2 == (a + w2)[|a|..];
  }

  /** Text without `?`, followed by nothing or by a `?` and more, splits back
      into its two parts. */
  lemma SplitAtMark(h1: string, t1: string, h2: string, t2: string)
    requires '?' !in h1 && '?' !in h2
    requires t1 == "" || t1[0] == '?'
    requires t2 == "" || t2[0] == '?'
    requires h1 + t1 == h2 + t2
    ensures h1 == h2 && t1 == t2
  {
    var w := h1 + t1;
    MarkIndex(h1, t1);
    MarkIndex(h2, t2);
    assert |h1| == |h2|;
    assert h1 == w[..|h1|] && h2 == (h2 + t2)[..|h2|];
    assert t1 == w[|h1|..] && t2 == (h2 + t2)[|h2|..];
  }

  /** The first `?` of such a text is where its second part starts. */
  lemma MarkIndex(h: string, t: string)
    requires '?' !in h
    requires t == "" || t[0] == '?'
    ensures IndexOf(h + t, '?') == if t == "" then -1 else |h|
  {
    if t == "" {
      assert h + t == h;
    } else {
      var rest := t[1..];
      assert t == ['?'] + rest;
      assert h + t == h + ['?'] + rest;
      IndexOfConcat(h, '?', rest);
    }
  }

  // ---------------------------------------------------------------------------
  // _generateMoveTransaction_Swap, validation prefix
  // ---------------------------------------------------------------------------

  /** `TransactionOperation.Swap`. */
  datatype SwapRequest = SwapRequest(
    pool: PoolInfo,
    direction: PoolDirection,
    amount: int,
    minOutputAmount: Option<int>)

  /** Why the swap request is refused (each an `Error` thrown in the source). */
  datatype SwapRejection = InvalidAmount | InvalidMinOutputAmount | FrozenPool

  /** The three checks of `_generateMoveTransaction_Swap`, in order, before any
      coin is looked up. */
  function ValidateSwap(opt: SwapRequest): Option<SwapRejection>
  {
    if opt.amount <= 0 || opt.amount > U64Max then Some(InvalidAmount)
    else if opt.minOutputAmount.Some? && (opt.minOutputAmount.value < 0 || opt.minOutputAmount.value > U64Max)
    then Some(InvalidMinOutputAmount)
    else if opt.pool.freeze then Some(FrozenPool)
    else None
  }

  /** A request passes exactly when the amount is a positive u64, the minimum
      output (if any) is a u64 and the pool is not frozen. Each rejection is
      reported exactly when its own check fails and the earlier ones pass: a
      bad amount first, then a bad minimum output, then a frozen pool. */
  lemma ValidateSwapSpec(opt: SwapRequest)
    ensures ValidateSwap(opt).None? <==>
      && 0 < opt.amount < Power(2, 64)
      && (opt.minOutputAmount.Some? ==> 0 <= opt.minOutputAmount.value < Power(2, 64))
      && !opt.pool.freeze
    ensures var amountOk := 0 < opt.amount <= U64Max;
      var minOk := opt.minOutputAmount.Some? ==> 0 <= opt.minOutputAmount.value <= U64Max;
      && (ValidateSwap(opt) == Some(InvalidAmount) <==> !amountOk)
      && (ValidateSwap(opt) == Some(InvalidMinOutputAmount) <==> amountOk && !minOk)
      && (ValidateSwap(opt) == Some(FrozenPool) <==> amountOk && minOk && opt.pool.freeze)
  {
    U64MaxIsLargestU64();
  }

  /** `U64_MAX` is `2^64 - 1`. */
  lemma U64MaxIsLargestU64()
    ensures U64Max == Power(2, 64) - 1
  {
    assert Power(2, 2) == 4;
    PowerAdd(2, 2, 2);
    assert Power(2, 4) == 16;
    PowerAdd(2, 4, 4);
    assert Power(2, 8) == 256;
    PowerAdd(2, 8, 8);
    assert Power(2, 16) == 65536;
    PowerAdd(2, 16, 16);
    assert Power(2, 32) == 4294967296;
    PowerAdd(2, 32, 32);
  }
}
