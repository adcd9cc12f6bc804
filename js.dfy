/** The parts of JavaScript's semantics that the SDK's integer and string code
    relies on: BigInt division (truncating, throwing on a zero divisor), and the
    `slice`, `substring` and `indexOf` methods of strings. */
module Js {

  datatype Option<+T> = None | Some(value: T)

  /** What a BigInt or Array operation of the SDK can throw. */
  datatype Error =
    | DivisionByZero  // BigInt `/` by 0n
    | RangeError      // `Array(n)` with a negative length

  datatype Result<+T> = Ok(value: T) | Err(error: Error)

  function Abs(a: int): nat
  {
    if a < 0 then -a else a
  }

  /** `Math.max(a, b)`. */
  function Max(a: int, b: int): (m: int)
    ensures m >= a && m >= b && (m == a || m == b)
  {
    if a < b then b else a
  }

  /** BigInt `a / b`: the quotient rounded toward zero. Dafny's own `/` is
      Euclidean, which differs from this when `a` or `b` is negative. */
  function TDiv(a: int, b: int): int
    requires b != 0
  {
    var m := Abs(a) / Abs(b);
    if (a < 0) == (b < 0) then m else -m
  }

  /** The truncating quotient: its magnitude is the floor of |a| / |b|, its
      sign is that of a / b, and it is Dafny's `/` on non-negative operands. */
  lemma TDivMeaning(a: int, b: int)
    requires b != 0
    ensures var q := TDiv(a, b);
      && Abs(q) * Abs(b) <= Abs(a) < (Abs(q) + 1) * Abs(b)
      && (q != 0 ==> ((q < 0) <==> ((a < 0) != (b < 0))))
      && (a >= 0 && b > 0 ==> q == a / b)
  {
    var q, m := TDiv(a, b), Abs(a) / Abs(b);
    EuclidOnNaturals(Abs(a), Abs(b));
    if (a < 0) == (b < 0) {
      assert q == m;
    } else {
      assert q == -m;
    }
    assert Abs(q) == m;
  }

  lemma EuclidOnNaturals(a: nat, b: nat)
    requires b > 0
    ensures (a / b) * b <= a < (a / b + 1) * b
  {
    var m, r := a / b, a % b;
    assert a == m * b + r && 0 <= r < b;
    assert (m + 1) * b == m * b + b;
  }

  /** How `slice` reads an index: a negative one counts from the end; the
      result is clamped into [0, n]. */
  function SliceIndex(i: int, n: nat): (k: nat)
    ensures k <= n
    ensures 0 <= i <= n ==> k == i
    ensures i < 0 && n + i >= 0 ==> k == n + i
  {
    if i < 0 then (if n + i < 0 then 0 else n + i) else (if i > n then n else i)
  }

  /** `s.slice(start, end)`. */
  function Slice(s: string, start: int, end: int): string
  {
    var a, b := SliceIndex(start, |s|), SliceIndex(end, |s|);
    if a < b then s[a..b] else []
  }

  /** How `substring` reads an index: clamped into [0, n], no counting from the end. */
  function SubstringIndex(i: int, n: nat): (k: nat)
    ensures k <= n
    ensures 0 <= i <= n ==> k == i
  {
    if i < 0 then 0 else if i > n then n else i
  }

  /** `s.substring(start, end)`: the two indices are swapped when start > end. */
  function Substring(s: string, start: int, end: int): string
  {
    var a, b := SubstringIndex(start, |s|), SubstringIndex(end, |s|);
    if a <= b then s[a..b] else s[b..a]
  }

  /** `s.indexOf(c)`: the first position of `c`, or -1. */
  function IndexOf(s: string, c: char): (k: int)
    ensures -1 <= k < |s|
    ensures k == -1 <==> c !in s
    ensures k >= 0 ==> s[k] == c && c !in s[..k]
  {
    if |s| == 0 then -1
    else if s[0] == c then 0
    else
      var k := IndexOf(s[1..], c);
      if k == -1 then -1 else k + 1
  }

  /** `s.replace(c, '')` with a one-character string pattern: only the first
      occurrence is removed. */
  function RemoveFirst(s: string, c: char): (r: string)
    ensures c !in s ==> r == s
    ensures c in s ==> r == s[..IndexOf(s, c)] + s[IndexOf(s, c) + 1..]
  {
    var k := IndexOf(s, c);
    if k < 0 then s else s[..k] + s[k + 1..]
  }

  /** `c.repeat(n)`, and also `Array(n).fill(c).join("")`. */
  function Repeat(c: char, n: nat): (r: string)
    ensures |r| == n
    ensures forall i :: 0 <= i < n ==> r[i] == c
  {
    seq(n, _ => c)
  }

  lemma IndexOfConcat(a: string, c: char, b: string)
    requires c !in a
    ensures IndexOf(a + [c] + b, c) == |a|
  {
    var s := a + [c] + b;
    assert s[|a|] == c;
    assert s[..|a|] == a;
  }
}
