/** The small helpers of `src/internal/utils.ts`: integer powers and grouping. */
module Utils {
  import opened Js
  import opened Arith

  /** a^n, the reference definition. */
  function Power(a: int, n: nat): (r: int)
    ensures a > 0 ==> r > 0
  {
    if n == 0 then 1 else a * Power(a, n - 1)
  }

  /** `s.reduce((x, y) => x * y, acc)`: a left fold with multiplication. */
  function ProductFrom(acc: int, s: seq<int>): int
    decreases |s|
  {
    if s == [] then acc else ProductFrom(acc * s[0], s[1..])
  }

  /** `bigintPow(a, n)`, which multiplies `n` copies of `a` together starting
      from 1n (`Array(n).fill(a).reduce(...)`). A negative `n` makes `Array`
      throw; the type `nat` leaves that case to the callers, which model it. */
  function BigintPow(a: int, n: nat): (r: int)
    ensures r == Power(a, n)
  {
    ProductOfCopies(1, a, n);
    ProductFrom(1, seq(n, _ => a))
  }

  lemma {:induction false} ProductOfCopies(acc: int, a: int, n: nat)
    ensures ProductFrom(acc, seq(n, _ => a)) == acc * Power(a, n)
    decreases n
  {
    if n > 0 {
      var s := seq(n, _ => a);
      assert s[0] == a;
      assert s[1..] == seq(n - 1, _ => a);
      ProductOfCopies(acc * a, a, n - 1);
      MultiplyAssociates(acc, a, Power(a, n - 1));
    }
  }

  lemma {:induction false} PowerAdd(a: int, m: nat, n: nat)
    ensures Power(a, m + n) == Power(a, m) * Power(a, n)
  {
    if m > 0 {
      var p, q := Power(a, m - 1), Power(a, n);
      PowerAdd(a, m - 1, n);
      assert Power(a, m + n) == a * Power(a, m - 1 + n);
      MultiplyAssociates(a, p, q);
    }
  }

  /** The items of `arr` whose key is `k`, in the order they occur in `arr`. */
  function Group<T, K(==)>(arr: seq<T>, key: T -> K, k: K): (g: seq<T>)
    ensures |g| <= |arr|
    ensures forall i :: 0 <= i < |g| ==> key(g[i]) == k
  {
    if arr == [] then []
    else
      var last := arr[|arr| - 1];
      Group(arr[..|arr| - 1], key, k) + (if key(last) == k then [last] else [])
  }

  lemma {:induction false} GroupOfMissingKey<T, K>(arr: seq<T>, key: T -> K, k: K)
    requires forall i :: 0 <= i < |arr| ==> key(arr[i]) != k
    ensures Group(arr, key, k) == []
  {
    if arr != [] {
      GroupOfMissingKey(arr[..|arr| - 1], key, k);
    }
  }

  /** Every item sits in the group of its own key. */
  lemma {:induction false} ItemInItsGroup<T, K>(arr: seq<T>, key: T -> K, i: nat)
    requires i < |arr|
    ensures arr[i] in Group(arr, key, key(arr[i]))
  {
    var init := arr[..|arr| - 1];
    if i < |arr| - 1 {
      assert init[i] == arr[i];
      ItemInItsGroup(init, key, i);
    }
  }

  /** `groupBy(arr, key)`: pushes each item, in order, onto the list kept
      under its key. JavaScript turns the key into a property name; here keys
      are compared as values. */
  method GroupBy<T, K(==)>(arr: seq<T>, key: T -> K) returns (groups: map<K, seq<T>>)
    ensures groups.Keys == set i | 0 <= i < |arr| :: key(arr[i])
    ensures forall k :: k in groups ==> groups[k] == Group(arr, key, k)
  {
    groups := map[];
    for i := 0 to |arr|
      invariant groups.Keys == set j | 0 <= j < i :: key(arr[j])
      invariant forall k :: k in groups ==> groups[k] == Group(arr[..i], key, k)
    {
      var item := arr[i];
      assert arr[..i + 1][..i] == arr[..i] && arr[..i + 1][i] == item;
      if key(item) !in groups {
        GroupOfMissingKey(arr[..i], key, key(item));
      }
      var g := if key(item) in groups then groups[key(item)] else [];
      groups := groups[key(item) := g + [item]];
    }
    assert arr[..|arr|] == arr;
  }
}
