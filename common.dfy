/** The small value types and helpers of `src/internal/common.ts`: Move types,
    coins, pool types, `uniqArrayOn` and `getCoinUiDemicalStep`. */
module Common {
  import opened Js
  import opened Numerals
  import opened Demical

  /** A Move struct tag `package::module::field`. `MoveType.equals` compares
      the three fields, which is equality of this datatype. The package
      address is kept as given (its normalisation is a library call). */
  datatype MoveType = MoveType(package: string, moduleName: string, field: string)

  type CoinType = MoveType

  /** `CoinInfo`: one coin object owned by an account. */
  datatype CoinInfo = CoinInfo(coinType: CoinType, addr: string, balance: int)

  /** `PoolType`: the two coin types a pool trades, X first. */
  datatype PoolType = PoolType(xTokenType: CoinType, yTokenType: CoinType)

  // ---------------------------------------------------------------------------
  // uniqArrayOn
  // ---------------------------------------------------------------------------

  /** `Map.prototype.set(k, t)` on the entries of a JavaScript `Map`: an
      existing key keeps its place and takes the new value, a new key goes
      last. */
  function Put<K(==), T>(es: seq<(K, T)>, k: K, t: T): seq<(K, T)>
  {
    if es == [] then [(k, t)]
    else if es[0].0 == k then [(k, t)] + es[1..]
    else [es[0]] + Put(es[1..], k, t)
  }

  /** The entries of `new Map(items.map(t => [on(t), t]))`: the pairs are set
      one after the other. */
  function Entries<T, K(==)>(items: seq<T>, on: T -> K): seq<(K, T)>
  {
    if items == [] then []
    else
      var last := items[|items| - 1];
      Put(Entries(items[..|items| - 1], on), on(last), last)
  }

  /** `uniqArrayOn(items, on)`: the values of that map, in its order. */
  function UniqArrayOn<T, K(==)>(items: seq<T>, on: T -> K): seq<T>
  {
    var es := Entries(items, on);
    seq(|es|, i requires 0 <= i < |es| => es[i].1)
  }

  /** The reference definition: the position of the last item of `array`
      whose key is `k`, or -1. */
  function LastIndexWithKey<T, K(==)>(items: seq<T>, on: T -> K, k: K): (i: int)
    ensures -1 <= i < |items|
    ensures i >= 0 ==> on(items[i]) == k
    ensures forall j :: i < j < |items| ==> on(items[j]) != k
  {
    if items == [] then -1
    else if on(items[|items| - 1]) == k then |items| - 1
    else LastIndexWithKey(items[..|items| - 1], on, k)
  }

  /** The last item of `items` whose key is `k`. */
  function LastWithKey<T, K(==)>(items: seq<T>, on: T -> K, k: K): Option<T>
  {
    var j := LastIndexWithKey(items, on, k);
    if j < 0 then None else Some(items[j])
  }

  /** The value a map's entries hold for `k`. */
  function Lookup<K(==), T>(es: seq<(K, T)>, k: K): Option<T>
  {
    if es == [] then None
    else if es[0].0 == k then Some(es[0].1)
    else Lookup(es[1..], k)
  }

  predicate DistinctKeys<K(==), T>(es: seq<(K, T)>)
  {
    forall i, j :: 0 <= i < j < |es| ==> es[i].0 != es[j].0
  }

  lemma {:induction false} PutLookup<K, T>(es: seq<(K, T)>, k: K, t: T, k': K)
    ensures Lookup(Put(es, k, t), k') == if k' == k then Some(t) else Lookup(es, k')
  {
    if es != [] && es[0].0 != k {
      PutLookup(es[1..], k, t, k');
    }
  }

  /** The position of the entry for `k`, or -1. */
  function KeyIndex<K(==), T>(es: seq<(K, T)>, k: K): (i: int)
    ensures -1 <= i < |es|
    ensures i >= 0 ==> es[i].0 == k
    ensures forall j :: 0 <= j < |es| && (i < 0 || j < i) ==> es[j].0 != k
  {
    if es == [] then -1
    else if es[0].0 == k then 0
    else
      var i := KeyIndex(es[1..], k);
      if i < 0 then -1 else i + 1
  }

  /** `set` replaces the entry of an existing key in place, or appends. */
  lemma {:induction false} PutIsUpdate<K, T>(es: seq<(K, T)>, k: K, t: T)
    ensures Put(es, k, t) ==
      if KeyIndex(es, k) < 0 then es + [(k, t)] else es[KeyIndex(es, k) := (k, t)]
  {
    if es != [] && es[0].0 != k {
      PutIsUpdate(es[1..], k, t);
      var i := KeyIndex(es[1..], k);
      if i < 0 {
        assert [es[0]] + (es[1..] + [(k, t)]) == es + [(k, t)];
      } else {
        assert [es[0]] + es[1..][i := (k, t)] == es[i + 1 := (k, t)];
      }
    }
  }

  lemma PutKeys<K, T>(es: seq<(K, T)>, k: K, t: T)
    requires DistinctKeys(es)
    ensures DistinctKeys(Put(es, k, t))
    ensures forall i :: 0 <= i < |Put(es, k, t)| ==>
      (Put(es, k, t)[i].0 == k && Put(es, k, t)[i].1 == t) || Put(es, k, t)[i] in es
  {
    PutIsUpdate(es, k, t);
    var p := Put(es, k, t);
    var n := KeyIndex(es, k);
    forall i | 0 <= i < |p|
      ensures (p[i].0 == k && p[i].1 == t) || p[i] in es
    {
      if i < |es| && i != n {
        assert p[i] == es[i];
      }
    }
  }

  lemma {:induction false} LookupOfEntry<K, T>(es: seq<(K, T)>, i: nat)
    requires DistinctKeys(es) && i < |es|
    ensures Lookup(es, es[i].0) == Some(es[i].1)
  {
    if i > 0 {
      var rest := es[1..];
      assert DistinctKeys(rest) by {
        forall a, b | 0 <= a < b < |rest| ensures rest[a].0 != rest[b].0 {
          assert rest[a] == es[a + 1] && rest[b] == es[b + 1];
        }
      }
      assert rest[i - 1] == es[i];
      LookupOfEntry(rest, i - 1);
    }
  }

  lemma {:induction false} LookupFindsEntry<K, T>(es: seq<(K, T)>, k: K)
    requires Lookup(es, k).Some?
    ensures exists i :: 0 <= i < |es| && es[i].0 == k
  {
    if es[0].0 != k {
      LookupFindsEntry(es[1..], k);
      var i :| 0 <= i < |es[1..]| && es[1..][i].0 == k;
      assert es[i + 1].0 == k;
    }
  }

  /** The map built by `uniqArrayOn` has distinct keys, each the key of its
      own value, and holds for every key the last item with that key. */
  lemma {:induction false} EntriesSpec<T, K>(items: seq<T>, on: T -> K)
    ensures DistinctKeys(Entries(items, on))
    ensures forall i :: 0 <= i < |Entries(items, on)| ==>
      on(Entries(items, on)[i].1) == Entries(items, on)[i].0
    ensures forall k :: Lookup(Entries(items, on), k) == LastWithKey(items, on, k)
  {
    if items != [] {
      var init := items[..|items| - 1];
      var last := items[|items| - 1];
      EntriesSpec(init, on);
      var es := Entries(init, on);
      PutKeys(es, on(last), last);
      forall k
        ensures Lookup(Entries(items, on), k) == LastWithKey(items, on, k)
      {
        PutLookup(es, on(last), last, k);
        var j := LastIndexWithKey(init, on, k);
        if j >= 0 {
          assert init[j] == items[j];
        }
      }
      forall i | 0 <= i < |Entries(items, on)|
        ensures on(Entries(items, on)[i].1) == Entries(items, on)[i].0
      {
        var p := Entries(items, on)[i];
        if p !in es {
          assert p.0 == on(last) && p.1 == last;
        } else {
          var j :| 0 <= j < |es| && es[j] == p;
        }
      }
    }
  }

  /** `uniqArrayOn` keeps one item per key: the items have distinct keys,
      every key of `array` occurs, and each kept item is the last item of
      `array` with its key. */
  lemma UniqArrayOnSpec<T, K>(items: seq<T>, on: T -> K)
    ensures var r := UniqArrayOn(items, on);
      && |r| <= |items|
      && (forall i, j :: 0 <= i < j < |r| ==> on(r[i]) != on(r[j]))
      && (forall j :: 0 <= j < |r| ==>
            LastIndexWithKey(items, on, on(r[j])) >= 0
            && r[j] == items[LastIndexWithKey(items, on, on(r[j]))])
      && (set j | 0 <= j < |r| :: on(r[j])) == (set i | 0 <= i < |items| :: on(items[i]))
  {
    var es := Entries(items, on);
    var r := UniqArrayOn(items, on);
    EntriesSpec(items, on);
    forall j | 0 <= j < |r|
      ensures LastIndexWithKey(items, on, on(r[j])) >= 0
      ensures r[j] == items[LastIndexWithKey(items, on, on(r[j]))]
    {
      LookupOfEntry(es, j);
      assert r[j] == es[j].1 && on(r[j]) == es[j].0;
      assert Lookup(es, on(r[j])) == LastWithKey(items, on, on(r[j]));
    }
    var keysR := set j | 0 <= j < |r| :: on(r[j]);
    var keysA := set i | 0 <= i < |items| :: on(items[i]);
    forall k | k in keysA ensures k in keysR {
      var i :| 0 <= i < |items| && on(items[i]) == k;
      assert LastIndexWithKey(items, on, k) >= i;
      LookupFindsEntry(es, k);
      var j :| 0 <= j < |es| && es[j].0 == k;
      assert on(r[j]) == k;
    }
    forall k | k in keysR ensures k in keysA {
      var j :| 0 <= j < |r| && on(r[j]) == k;
      var i := LastIndexWithKey(items, on, k);
      assert on(items[i]) == k;
    }
    KeysBound(items, on, r);
  }

  /** Distinct keys taken from `array` are no more than its items. */
  lemma KeysBound<T, K>(items: seq<T>, on: T -> K, r: seq<T>)
    requires forall i, j :: 0 <= i < j < |r| ==> on(r[i]) != on(r[j])
    requires (set j | 0 <= j < |r| :: on(r[j])) == (set i | 0 <= i < |items| :: on(items[i]))
    ensures |r| <= |items|
  {
    var keysR := set j | 0 <= j < |r| :: on(r[j]);
    DistinctImage(r, on);
    ImageBound(items, on);
  }

  lemma {:induction false} DistinctImage<T, K>(r: seq<T>, on: T -> K)
    requires forall i, j :: 0 <= i < j < |r| ==> on(r[i]) != on(r[j])
    ensures |set j | 0 <= j < |r| :: on(r[j])| == |r|
  {
    if r != [] {
      var init := r[..|r| - 1];
      DistinctImage(init, on);
      var s := set j | 0 <= j < |r| :: on(r[j]);
      var s' := set j | 0 <= j < |init| :: on(init[j]);
      assert s == s' + {on(r[|r| - 1])} by {
        forall k | k in s ensures k in s' + {on(r[|r| - 1])} {
          var j :| 0 <= j < |r| && on(r[j]) == k;
          if j < |init| {
            assert init[j] == r[j];
          }
        }
        forall k | k in s' ensures k in s {
          var j :| 0 <= j < |init| && on(init[j]) == k;
          assert r[j] == init[j];
        }
      }
      assert on(r[|r| - 1]) !in s' by {
        forall j | 0 <= j < |init| ensures on(init[j]) != on(r[|r| - 1]) {
          assert init[j] == r[j];
        }
      }
    }
  }

  lemma {:induction false} ImageBound<T, K>(a: seq<T>, on: T -> K)
    ensures |set i | 0 <= i < |a| :: on(a[i])| <= |a|
  {
    if a != [] {
      var init := a[..|a| - 1];
      ImageBound(init, on);
      var s := set i | 0 <= i < |a| :: on(a[i]);
      var s' := set i | 0 <= i < |init| :: on(init[i]);
      assert s == s' + {on(a[|a| - 1])} by {
        forall k | k in s ensures k in s' + {on(a[|a| - 1])} {
          var i :| 0 <= i < |a| && on(a[i]) == k;
          if i < |init| {
            assert init[i] == a[i];
          }
        }
        forall k | k in s' ensures k in s {
          var i :| 0 <= i < |init| && on(init[i]) == k;
          assert a[i] == init[i];
        }
      }
    }
  }

  // ---------------------------------------------------------------------------
  // getCoinUiDemicalStep
  // ---------------------------------------------------------------------------

  /** `getCoinUiDemicalStep(info)` on `info.demical`: nothing when it is
      absent, `"1"` for no decimals, otherwise `"0.0…01"` with the 1 in the
      last decimal place. */
  function GetCoinUiDemicalStep(demical: Option<int>): Option<string>
  {
    if demical.None? then None
    else if demical.value <= 0 then Some("1")
    else Some("0." + Repeat('0', demical.value - 1) + "1")
  }

  /** The step is one unit of the last decimal place: read back with
      `DemicalFormat.fromString` it is the value 1 with `demical` decimals. */
  lemma CoinUiDemicalStepIsOneUnit(demical: int)
    ensures var s := GetCoinUiDemicalStep(Some(demical)).value;
      Parsed(s) == Some(DemicalFormat(1, if demical <= 0 then 0 else demical))
  {
    var s := GetCoinUiDemicalStep(Some(demical)).value;
    if demical <= 0 {
      NumeralWithoutPoint("1");
      assert DigitsValue("1") == 1;
      ParsedUnit(s, 0);
    } else {
      StepNumeral(demical);
      ParsedUnit(s, demical);
    }
  }

  /** `0.0…01` with `demical` decimals is a numeral for `1 / 10^demical`. */
  lemma StepNumeral(demical: int)
    requires demical > 0
    ensures var s := "0." + Repeat('0', demical - 1) + "1";
      IsNumeral(s) && !DoubleZeroPrefix(s) && Mantissa(s) == 1 && Scale(s) == demical
  {
    var s := "0." + Repeat('0', demical - 1) + "1";
    var f := UnitDigits(demical - 1);
    assert s == "0" + "." + f;
    NumeralWithPoint("0", f);
    assert IntPart(s) + FracPart(s) == "0" + f;
    assert s[1] == '.';
  }

  /** `0…01` with `k` zeros, alone or after one more `0`, is the digits of 1. */
  lemma UnitDigits(k: nat) returns (f: string)
    ensures f == Repeat('0', k) + "1" && |f| == k + 1
    ensures AllDigits(f) && DigitsValue(f) == 1
    ensures AllDigits("0" + f) && DigitsValue("0" + f) == 1
  {
    f := Repeat('0', k) + "1";
    assert AllDigits("1") && DigitsValue("1") == 1;
    DigitsValueLeadingZeros(k, "1");
    DigitsValueLeadingZeros(1, f);
    assert "0" + f == Repeat('0', 1) + f;
  }

  /** An accepted numeral for `1 / 10^dd` parses to the value 1 with `dd`
      decimals. */
  lemma ParsedUnit(s: string, dd: nat)
    requires IsNumeral(s) && !DoubleZeroPrefix(s) && Mantissa(s) == 1 && Scale(s) == dd
    ensures Parsed(s) == Some(DemicalFormat(1, dd))
  {
    ParsedMeaning(s);
    var e := Parsed(s).value;
    CanonicalUnique(e.value, e.demical, 1, dd);
  }
}
