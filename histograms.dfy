// Byte-value histograms: the `int[256]` and `decimal[256]` tallies the
// statistics are built from.
module Histograms {
  import opened Bytes
  import opened Sums

  /** The number of occurrences of each byte value 0..255 in `c`. */
  function Histogram(c: seq<byte>): (h: seq<int>)
    ensures |h| == AlphabetSize
    ensures forall v :: 0 <= v < AlphabetSize ==> h[v] >= 0 && (h[v] > 0 <==> v in c)
  {
    seq(AlphabetSize, v requires 0 <= v < AlphabetSize => multiset(c)[v])
  }

  /** The histogram counts add up to the number of bytes counted. */
  lemma {:induction false} HistogramTotal(c: seq<byte>)
    ensures IntTotal(Histogram(c)) == |c|
    decreases |c|
  {
    if |c| == 0 {
      IntTotalOfZeros(Histogram(c));
    } else {
      var n := |c| - 1;
      HistogramTotal(c[..n]);
      HistogramAppend(c[..n], c[n]);
      assert c[..n] + [c[n]] == c;
      IntTotalBump(Histogram(c[..n]), c[n], 1);
    }
  }

  /** Counting one more byte increments its bucket only. */
  lemma HistogramAppend(c: seq<byte>, b: byte)
    ensures Histogram(c + [b]) == Histogram(c)[b := Histogram(c)[b] + 1]
  {
    assert multiset(c + [b]) == multiset(c) + multiset{b};
  }
}
