/** Small shared definitions: an Option type, powers of two, absolute value,
    the C++ double-to-int conversion, and two facts about sequences. */
module Util {

  /** A result that may be missing (a walk that never stops, an out-of-range access). */
  datatype Option<T> = None | Some(value: T)

  /** 2^n, the value of `1 << n` when it does not overflow. */
  function Pow2(n: nat): (r: nat)
    ensures r >= 1
  {
    if n == 0 then 1 else 2 * Pow2(n - 1)
  }

  /** `(i + 1) % n`: one step forward around a cycle of n positions. */
  function Next(n: nat, i: nat): (r: nat)
    requires i < n
    ensures r < n
    ensures r == if i + 1 == n then 0 else i + 1
  {
    (i + 1) % n
  }

  /** `(n + i - 1) % n`: one step backward around a cycle of n positions. */
  function Prev(n: nat, i: nat): (r: nat)
    requires i < n
    ensures r < n
    ensures r == if i == 0 then n - 1 else i - 1
  {
    (n + i - 1) % n
  }

  function Abs(x: int): (r: nat)
    ensures r == x || r == -x
  {
    if x < 0 then -x else x
  }

  /** Conversion of a double to an int in C++: the fractional part is dropped,
      so the value is rounded toward zero. */
  function TruncToInt(v: real): (r: int)
    ensures v >= 0.0 ==> 0 <= r && r as real <= v < r as real + 1.0
    ensures v < 0.0 ==> r <= 0 && r as real - 1.0 < v <= r as real
  {
    if v >= 0.0 then v.Floor else -((-v).Floor)
  }

  /** `t` with its first occurrence of `x` removed. */
  function RemoveFirst<T(==)>(t: seq<T>, x: T): (r: seq<T>)
    requires x in t
    ensures |r| == |t| - 1
    ensures forall y :: y in t && y != x ==> y in r
  {
    if t[0] == x then t[1..]
    else [t[0]] + RemoveFirst(t[1..], x)
  }

  /** A sequence without repeated elements, all of whose elements occur in `t`,
      is no longer than `t`. */
  lemma {:induction false} DistinctShorter<T>(s: seq<T>, t: seq<T>)
    requires forall a, b :: 0 <= a < b < |s| ==> s[a] != s[b]
    requires forall y :: y in s ==> y in t
    ensures |s| <= |t|
  {
    if |s| > 0 {
      var t' := RemoveFirst(t, s[0]);
      forall y | y in s[1..]
        ensures y in t'
      {
        var k :| 1 <= k < |s| && s[k] == y;
        assert s[0] != s[k];
      }
      DistinctShorter(s[1..], t');
    }
  }
}
