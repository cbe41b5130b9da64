// The strided subsequences ("cosets") that both statistics are taken over:
// positions start, start + step, start + 2*step, ... below the input length.
module Strides {
  import opened Bytes

  /** The bytes of `s` at positions start, start + step, start + 2 * step, ... below |s|. */
  function Stride(s: seq<byte>, start: nat, step: nat): (r: seq<byte>)
    requires step >= 1
    ensures start >= |s| ==> r == []
    ensures start < |s| ==> 1 <= |r| <= |s| - start
    decreases |s| - start
  {
    if start >= |s| then [] else [s[start]] + Stride(s, start + step, step)
  }

  /** A loop that has collected `done` and stands at `pos` may take s[pos] and move on by one step. */
  lemma StrideAdvance(s: seq<byte>, start: nat, step: nat, pos: nat, done: seq<byte>)
    requires step >= 1 && pos < |s|
    requires done + Stride(s, pos, step) == Stride(s, start, step)
    ensures (done + [s[pos]]) + Stride(s, pos + step, step) == Stride(s, start, step)
  {
    assert Stride(s, pos, step) == [s[pos]] + Stride(s, pos + step, step);
    assert done + ([s[pos]] + Stride(s, pos + step, step)) == (done + [s[pos]]) + Stride(s, pos + step, step);
  }

  /** Every position start + m * step inside `s` is element m of the stride. */
  lemma {:induction false} StrideCovers(s: seq<byte>, start: nat, step: nat, m: nat)
    requires step >= 1
    requires start + m * step < |s|
    ensures m < |Stride(s, start, step)|
    ensures Stride(s, start, step)[m] == s[start + m * step]
    decreases m
  {
    if m > 0 {
      assert (start + step) + (m - 1) * step == start + m * step;
      StrideCovers(s, start + step, step, m - 1);
    }
  }

  /** Element m of the stride is the byte at position start + m * step, which lies inside `s`. */
  lemma {:induction false} StrideElement(s: seq<byte>, start: nat, step: nat, m: nat)
    requires step >= 1
    requires m < |Stride(s, start, step)|
    ensures start + m * step < |s|
    ensures Stride(s, start, step)[m] == s[start + m * step]
    decreases m
  {
    if m > 0 {
      StrideElement(s, start + step, step, m - 1);
      assert (start + step) + (m - 1) * step == start + m * step;
    }
  }

  /**
   * The stride holds exactly the positions start + m * step below |s|, in
   * increasing order: its length is the number of such positions.
   */
  lemma StrideExactly(s: seq<byte>, start: nat, step: nat)
    requires step >= 1
    ensures forall m: nat :: m < |Stride(s, start, step)| <==> start + m * step < |s|
    ensures forall m: nat :: m < |Stride(s, start, step)| ==> Stride(s, start, step)[m] == s[start + m * step]
  {
    forall m: nat
      ensures m < |Stride(s, start, step)| <==> start + m * step < |s|
    {
      if m < |Stride(s, start, step)| {
        StrideElement(s, start, step, m);
      }
      if start + m * step < |s| {
        StrideCovers(s, start, step, m);
      }
    }
    forall m: nat | m < |Stride(s, start, step)|
      ensures Stride(s, start, step)[m] == s[start + m * step]
    {
      StrideElement(s, start, step, m);
    }
  }

  /**
   * The key-length coset of L holds the bytes at L, 2L, 3L, ... below |s|:
   * position 0 is never part of it, it is empty exactly when L >= |s|, and
   * its n elements are the multiples L..nL, with (n + 1)L past the end.
   */
  lemma MultiplesCoset(s: seq<byte>, L: nat)
    requires L >= 1
    ensures |Stride(s, L, L)| == 0 <==> L >= |s|
    ensures forall m: nat :: m < |Stride(s, L, L)| ==> (m + 1) * L < |s| && Stride(s, L, L)[m] == s[(m + 1) * L]
    ensures |Stride(s, L, L)| * L < |s| || |Stride(s, L, L)| == 0
    ensures |s| <= (|Stride(s, L, L)| + 1) * L
  {
    var n := |Stride(s, L, L)|;
    StrideExactly(s, L, L);
    assert L + n * L == (n + 1) * L;
    if n > 0 {
      assert L + (n - 1) * L == n * L;
    }
    forall m: nat | m < n
      ensures (m + 1) * L < |s| && Stride(s, L, L)[m] == s[(m + 1) * L]
    {
      assert L + m * L == (m + 1) * L;
    }
  }

  /** Position p belongs to the residue class p % L, as element p / L of its stride. */
  lemma ResidueMember(s: seq<byte>, L: nat, p: nat)
    requires L >= 1 && p < |s|
    ensures p / L < |Stride(s, p % L, L)|
    ensures Stride(s, p % L, L)[p / L] == s[p]
  {
    var q, r := p / L, p % L;
    assert r + q * L == p;
    StrideCovers(s, r, L, q);
  }
}
