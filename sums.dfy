// Finite sums, the model of LINQ's `Sum()` over a histogram array.
module Sums {

  /** Sum of a sequence of reals, added left to right. */
  function Total(s: seq<real>): real
  {
    if |s| == 0 then 0.0 else Total(s[..|s| - 1]) + s[|s| - 1]
  }

  /** Sum of a sequence of integers, added left to right. */
  function IntTotal(s: seq<int>): int
  {
    if |s| == 0 then 0 else IntTotal(s[..|s| - 1]) + s[|s| - 1]
  }

  /** Adding `d` to one element adds `d` to the sum. */
  lemma {:induction false} TotalBump(s: seq<real>, k: nat, d: real)
    requires k < |s|
    ensures Total(s[k := s[k] + d]) == Total(s) + d
    decreases |s|
  {
    var t := s[k := s[k] + d];
    var n := |s| - 1;
    if k < n {
      assert t[..n] == s[..n][k := s[k] + d];
      TotalBump(s[..n], k, d);
    } else {
      assert t[..n] == s[..n];
    }
  }

  /** Adding `d` to one element adds `d` to the sum. */
  lemma {:induction false} IntTotalBump(s: seq<int>, k: nat, d: int)
    requires k < |s|
    ensures IntTotal(s[k := s[k] + d]) == IntTotal(s) + d
    decreases |s|
  {
    var t := s[k := s[k] + d];
    var n := |s| - 1;
    if k < n {
      assert t[..n] == s[..n][k := s[k] + d];
      IntTotalBump(s[..n], k, d);
    } else {
      assert t[..n] == s[..n];
    }
  }

  /** A sum of non-negative terms is at least each of its terms, and so non-negative. */
  lemma {:induction false} TotalAtLeastTerm(s: seq<real>, k: nat)
    requires forall i :: 0 <= i < |s| ==> s[i] >= 0.0
    requires k < |s|
    ensures Total(s) >= s[k] >= 0.0
    decreases |s|
  {
    var n := |s| - 1;
    if k < n {
      TotalAtLeastTerm(s[..n], k);
    } else if n > 0 {
      TotalAtLeastTerm(s[..n], 0);
    }
  }

  /** A sum of non-negative terms is non-negative. */
  lemma TotalNonNegative(s: seq<real>)
    requires forall i :: 0 <= i < |s| ==> s[i] >= 0.0
    ensures Total(s) >= 0.0
  {
    if |s| > 0 {
      TotalAtLeastTerm(s, 0);
    }
  }

  /** A sum of zeros is zero. */
  lemma {:induction false} TotalOfZeros(s: seq<real>)
    requires forall i :: 0 <= i < |s| ==> s[i] == 0.0
    ensures Total(s) == 0.0
    decreases |s|
  {
    if |s| > 0 {
      TotalOfZeros(s[..|s| - 1]);
    }
  }

  /** A sum of zeros is zero. */
  lemma {:induction false} IntTotalOfZeros(s: seq<int>)
    requires forall i :: 0 <= i < |s| ==> s[i] == 0
    ensures IntTotal(s) == 0
    decreases |s|
  {
    if |s| > 0 {
      IntTotalOfZeros(s[..|s| - 1]);
    }
  }
}
