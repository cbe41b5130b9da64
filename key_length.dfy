// Key-length estimation: for each candidate length L, an index-of-coincidence
// style score of the bytes at positions L, 2L, 3L, ...; the first strict
// maximum wins.
module KeyLength {
  import opened Bytes
  import opened Sums
  import opened Strides
  import opened Histograms

  /** Largest key length considered. */
  const MaxKeyLength: nat := 13

  /**
   * Each bucket's relative frequency, squared (`Math.Pow(b / (double) counted, 2)`):
   * never negative for a count, and positive for every non-empty bucket.
   */
  function SquaredRatios(h: seq<int>, counted: int): (r: seq<real>)
    requires counted > 0
    ensures |r| == |h|
    ensures forall v :: 0 <= v < |r| && h[v] >= 0 ==> r[v] >= 0.0
    ensures forall v :: 0 <= v < |r| && h[v] > 0 ==> r[v] > 0.0
  {
    var r := seq(|h|, v requires 0 <= v < |h| => (h[v] as real / counted as real) * (h[v] as real / counted as real));
    assert forall v :: 0 <= v < |r| && h[v] >= 0 ==> r[v] >= 0.0 && (h[v] > 0 ==> r[v] > 0.0) by {
      forall v | 0 <= v < |r| && h[v] >= 0
        ensures r[v] >= 0.0 && (h[v] > 0 ==> r[v] > 0.0)
      {
        SquaredRatioSign(h[v], counted);
      }
    }
    r
  }

  /** The square of a ratio of a count to a positive total is non-negative, and positive for a non-zero count. */
  lemma SquaredRatioSign(h: int, counted: int)
    requires h >= 0 && counted > 0
    ensures (h as real / counted as real) * (h as real / counted as real) >= 0.0
    ensures h > 0 ==> (h as real / counted as real) * (h as real / counted as real) > 0.0
  {
    var x := h as real / counted as real;
    assert x >= 0.0;
    if h > 0 {
      assert x > 0.0;
    }
  }

  /**
   * The score of candidate length L: the sum of squared relative frequencies
   * of its coset. A non-empty coset always scores above zero, since the
   * bucket of its first byte is non-empty.
   */
  function LengthScore(s: seq<byte>, L: nat): (r: real)
    requires 1 <= L < |s|
    ensures r > 0.0
  {
    var c := Stride(s, L, L);
    var h := Histogram(c);
    assert c[0] in c;
    SquaredRatiosPositive(h, |c|, c[0]);
    Total(SquaredRatios(h, |c|))
  }

  /** The sum of squared ratios is positive as soon as one count is. */
  lemma SquaredRatiosPositive(h: seq<int>, counted: int, k: nat)
    requires counted > 0
    requires forall v :: 0 <= v < |h| ==> h[v] >= 0
    requires k < |h| && h[k] > 0
    ensures Total(SquaredRatios(h, counted)) > 0.0
  {
    var sq := SquaredRatios(h, counted);
    assert sq[k] > 0.0;
    TotalAtLeastTerm(sq, k);
  }

  /**
   * The scores of the candidate lengths, indexed by length: entry L is
   * LengthScore(s, L) for a candidate whose coset is non-empty, and 0 for
   * index 0 and for candidates too long for the input.
   */
  function LengthScores(s: seq<byte>): (sc: seq<real>)
    ensures |sc| == MaxKeyLength + 1
    ensures forall L :: 1 <= L < |sc| && L < |s| ==> sc[L] > 0.0
  {
    seq(MaxKeyLength + 1, L requires 0 <= L <= MaxKeyLength => if 1 <= L < |s| then LengthScore(s, L) else 0.0)
  }

  /**
   * `len` is the first strict maximum of the scores `sc` over the candidates
   * 1..MaxKeyLength shorter than `n`, or 0 when there is no such candidate:
   * its score is at least every candidate's and strictly above every
   * shorter candidate's.
   */
  ghost predicate FirstMax(sc: seq<real>, n: nat, len: int)
    requires |sc| == MaxKeyLength + 1
  {
    (len == 0 && n <= 1) ||
    (1 <= len <= MaxKeyLength && len < n &&
     (forall L :: 1 <= L <= MaxKeyLength && L < n ==> sc[L] <= sc[len]) &&
     (forall L :: 1 <= L < len ==> sc[L] < sc[len]))
  }

  /** `len` is the length the estimator settles on for the input s. */
  ghost predicate IsBestLength(s: seq<byte>, len: int)
  {
    FirstMax(LengthScores(s), |s|, len)
  }

  /** The estimate is determined by the input: two lengths that both qualify are equal. */
  lemma BestLengthUnique(s: seq<byte>, a: int, b: int)
    requires IsBestLength(s, a) && IsBestLength(s, b)
    ensures a == b
  {
    var sc := LengthScores(s);
    if a != 0 && b != 0 {
      assert sc[b] <= sc[a];
      assert sc[a] <= sc[b];
    }
  }

  /**
   * The state of the scan over candidate lengths before candidate i: the best
   * length so far (0 for none yet) with its score `max`, which no earlier
   * candidate with a non-empty coset exceeds and every earlier shorter
   * candidate falls strictly below.
   */
  ghost predicate ScanState(sc: seq<real>, n: nat, i: nat, max: real, maxLen: nat)
    requires |sc| == MaxKeyLength + 1
  {
    1 <= i <= MaxKeyLength + 1 && maxLen < i &&
    (maxLen == 0 ==> max == 0.0 && (i > 1 ==> n <= 1)) &&
    (maxLen > 0 ==> maxLen < n && max == sc[maxLen]) &&
    (forall L :: 1 <= L < i && L < n ==> sc[L] <= max) &&
    (forall L :: 1 <= L < maxLen ==> sc[L] < max)
  }

  /** Candidate i does not beat the best so far (an empty coset never does). */
  lemma ScanKeeps(sc: seq<real>, n: nat, i: nat, max: real, maxLen: nat)
    requires |sc| == MaxKeyLength + 1 && ScanState(sc, n, i, max, maxLen) && i <= MaxKeyLength
    requires i < n ==> 0.0 < sc[i] <= max
    ensures ScanState(sc, n, i + 1, max, maxLen)
  {
  }

  /** Candidate i beats the best so far and becomes the new best. */
  lemma ScanTakes(sc: seq<real>, n: nat, i: nat, max: real, maxLen: nat)
    requires |sc| == MaxKeyLength + 1 && ScanState(sc, n, i, max, maxLen) && i <= MaxKeyLength
    requires i < n && sc[i] > max
    ensures ScanState(sc, n, i + 1, sc[i], i)
  {
  }

  /** After the last candidate the best so far is the first strict maximum. */
  lemma ScanFinishes(sc: seq<real>, n: nat, max: real, maxLen: nat)
    requires |sc| == MaxKeyLength + 1 && ScanState(sc, n, MaxKeyLength + 1, max, maxLen)
    ensures FirstMax(sc, n, maxLen)
    ensures maxLen >= 1 <==> n >= 2
  {
  }

  /**
   * Tabulates the coset of L: `bytes[v]` counts the bytes of value v at
   * positions L, 2L, ..., and `counted` is how many there are.
   */
  method CosetHistogram(input: array<byte>, L: nat) returns (bytes: array<int>, counted: nat)
    requires L >= 1
    ensures fresh(bytes) && bytes.Length == AlphabetSize && bytes[..] == Histogram(Stride(input[..], L, L))
    ensures counted == |Stride(input[..], L, L)|
  {
    ghost var s := input[..];
    counted := 0;
    bytes := new int[AlphabetSize](_ => 0);
    ghost var done: seq<byte> := [];
    assert bytes[..] == Histogram(done);
    var pos := L;
    while pos < input.Length
      invariant input[..] == s
      invariant done + Stride(s, pos, L) == Stride(s, L, L)
      invariant counted == |done|
      invariant bytes[..] == Histogram(done)
      decreases input.Length - pos
    {
      var b := input[pos];
      HistogramAppend(done, b);
      StrideAdvance(s, L, L, pos, done);
      ghost var h := bytes[..];
      bytes[b] := bytes[b] + 1;
      assert bytes[..] == h[b := h[b] + 1];
      counted := counted + 1;
      done := done + [b];
      pos := pos + L;
    }
    assert Stride(s, pos, L) == [];
  }
}
