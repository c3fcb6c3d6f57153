/** Exact-real stand-ins for the numpy reductions the analysis relies on
    (`np.sum`, `np.cumsum`, `abs`). */
module Numerics {

  function Abs(x: real): (r: real)
    ensures r >= 0.0 && (r == x || r == -x)
  {
    if x < 0.0 then -x else x
  }

  function Min(a: int, b: int): (r: int)
    ensures r <= a && r <= b && (r == a || r == b)
  {
    if a <= b then a else b
  }

  /** Sum of a sequence, accumulated left to right. */
  function Sum(s: seq<real>): real
  {
    if s == [] then 0.0 else Sum(s[..|s| - 1]) + s[|s| - 1]
  }

  /** Peeling the first term off a sum instead of the last. */
  lemma {:induction false} SumCons(s: seq<real>)
    requires |s| > 0
    ensures Sum(s) == s[0] + Sum(s[1..])
  {
    if |s| > 1 {
      SumCons(s[..|s| - 1]);
      assert s[..|s| - 1][1..] == s[1..][..|s| - 2];
    }
  }

  lemma SumConsPrefixes(s: seq<real>)
    ensures forall k :: 0 < k <= |s| ==> Sum(s[..k]) == s[0] + Sum(s[1..k])
  {
    forall k | 0 < k <= |s|
      ensures Sum(s[..k]) == s[0] + Sum(s[1..k])
    {
      SumCons(s[..k]);
      assert s[..k][1..] == s[1..k];
    }
  }

  lemma {:induction false} SumNonNegative(s: seq<real>)
    requires forall i :: 0 <= i < |s| ==> s[i] >= 0.0
    ensures Sum(s) >= 0.0
  {
    if s != [] {
      SumNonNegative(s[..|s| - 1]);
    }
  }

  /** When every term is the matching term of `t` divided by `total`,
      the sums are in the same ratio. */
  lemma {:induction false} SumOfRatios(s: seq<real>, t: seq<real>, total: real)
    requires total != 0.0 && |s| == |t|
    requires forall i :: 0 <= i < |s| ==> s[i] == t[i] / total
    ensures Sum(s) == Sum(t) / total
  {
    if s != [] {
      var n := |s| - 1;
      SumOfRatios(s[..n], t[..n], total);
      assert s[n] == t[n] / total;
      assert Sum(t[..n]) / total + t[n] / total == (Sum(t[..n]) + t[n]) / total;
    }
  }

  /** Running totals from `acc`, one per term. */
  function CumsumFrom(acc: real, s: seq<real>): (c: seq<real>)
    ensures |c| == |s|
    ensures forall k :: 0 <= k < |s| ==> c[k] == acc + Sum(s[..k + 1])
    decreases |s|
  {
    if s == [] then []
    else
      var rest := CumsumFrom(acc + s[0], s[1..]);
      SumConsPrefixes(s);
      assert s[..1] == [s[0]];
      assert forall k :: 1 <= k < |s| ==> s[1..][..k] == s[1..k + 1];
      [acc + s[0]] + rest
  }

  /** `np.cumsum`: entry k is the sum of the first k + 1 terms. */
  function Cumsum(s: seq<real>): (c: seq<real>)
    ensures |c| == |s|
    ensures forall k :: 0 <= k < |s| ==> c[k] == Sum(s[..k + 1])
  {
    CumsumFrom(0.0, s)
  }

  /** The running totals obey the recurrence a cumulative column is read by. */
  lemma CumsumRecurrence(s: seq<real>)
    requires |s| > 0
    ensures Cumsum(s)[0] == s[0]
    ensures forall k :: 0 < k < |s| ==> Cumsum(s)[k] == Cumsum(s)[k - 1] + s[k]
  {
    assert s[..1][..0] == [];
    forall k | 0 < k < |s|
      ensures Cumsum(s)[k] == Cumsum(s)[k - 1] + s[k]
    {
      assert s[..k + 1][..k] == s[..k];
    }
  }

  /** With non-negative terms a longer prefix never sums to less. */
  lemma {:induction false} PrefixSumMonotone(s: seq<real>, a: nat, b: nat)
    requires a <= b <= |s|
    requires forall i :: 0 <= i < |s| ==> s[i] >= 0.0
    ensures Sum(s[..a]) <= Sum(s[..b])
  {
    if a < b {
      PrefixSumMonotone(s, a, b - 1);
      assert s[..b][..b - 1] == s[..b - 1];
    }
  }

  lemma CumsumNonDecreasing(s: seq<real>)
    requires forall i :: 0 <= i < |s| ==> s[i] >= 0.0
    ensures forall a, b :: 0 <= a <= b < |s| ==> Cumsum(s)[a] <= Cumsum(s)[b]
  {
    forall a, b | 0 <= a <= b < |s|
      ensures Cumsum(s)[a] <= Cumsum(s)[b]
    {
      PrefixSumMonotone(s, a + 1, b + 1);
    }
  }
}
