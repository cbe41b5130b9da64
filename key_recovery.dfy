// Key-byte recovery: for each key position, every candidate byte that keeps
// its residue class printable is scored against English letter frequencies,
// and the first strict maximum is kept.
module KeyRecovery {
  import opened Bytes
  import opened Sums
  import opened Strides
  import opened Histograms

  /** Decrypting every byte of the class `c` with candidate `j` gives a printable byte. */
  predicate Accepted(c: seq<byte>, j: byte)
    ensures |c| == 0 ==> Accepted(c, j)
  {
    forall k :: 0 <= k < |c| ==> Printable(Xor(c[k], j))
  }

  /** The class decrypted with `j` and lower-cased: the bucket each byte lands in. */
  function Folded(c: seq<byte>, j: byte): (r: seq<byte>)
    ensures |r| == |c|
  {
    seq(|c|, k requires 0 <= k < |c| => ToLowerAscii(Xor(c[k], j)))
  }

  /** The weight one byte adds to its bucket, 1 / divisor with divisor = n / keyLen. */
  function Weight(n: nat, keyLen: nat): (w: real)
    requires keyLen >= 1
    ensures w >= 0.0
  {
    if n == 0 then 0.0 else keyLen as real / n as real
  }

  /** The observed-frequency table of the folded bytes `t`: each byte adds `w` to its bucket. */
  function Observed(t: seq<byte>, w: real): (o: seq<real>)
    ensures |o| == AlphabetSize
  {
    seq(AlphabetSize, v requires 0 <= v < AlphabetSize => Histogram(t)[v] as real * w)
  }

  /** The element-wise products of two tables (the `result` array). */
  function Products(o: seq<real>, f: seq<real>): (p: seq<real>)
    requires |o| == |f|
    ensures |p| == |o|
  {
    seq(|o|, v requires 0 <= v < |o| => o[v] * f[v])
  }

  /** Dot product of an observed table with the reference table `f`. */
  function Dot(o: seq<real>, f: seq<real>): (r: real)
    requires |o| == AlphabetSize && |f| == AlphabetSize
    ensures (forall v :: 0 <= v < AlphabetSize ==> o[v] >= 0.0 && f[v] >= 0.0) ==> r >= 0.0
  {
    var p := Products(o, f);
    assert (forall v :: 0 <= v < AlphabetSize ==> o[v] >= 0.0 && f[v] >= 0.0) ==> Total(p) >= 0.0 by {
      if forall v :: 0 <= v < AlphabetSize ==> o[v] >= 0.0 && f[v] >= 0.0 {
        forall v | 0 <= v < AlphabetSize
          ensures p[v] >= 0.0
        {
          ProductNonNegative(o[v], f[v]);
        }
        TotalNonNegative(p);
      }
    }
    Total(p)
  }

  /**
   * The score of candidate `j` for class `c`: the dot product of the observed
   * table with `f`. It equals `w` times the sum, over the bytes of the class,
   * of the reference frequency of each decrypted byte after lower-casing; so
   * 'A'..'Z' weigh exactly as 'a'..'z'.
   */
  function Score(c: seq<byte>, j: byte, w: real, f: seq<real>): (r: real)
    requires |f| == AlphabetSize
    ensures r == w * Total(FrequenciesOf(Folded(c, j), f))
  {
    DotBySymbols(Folded(c, j), w, f);
    Dot(Observed(Folded(c, j), w), f)
  }

  /**
   * `b` is the key byte the recoverer keeps for class `c`: either an accepted
   * candidate with a positive score that no accepted candidate beats and every
   * lower accepted candidate scores strictly below, or 0 when no accepted
   * candidate scores above 0.
   */
  ghost predicate ChosenKeyByte(c: seq<byte>, w: real, f: seq<real>, b: byte)
    requires |f| == AlphabetSize
  {
    (Accepted(c, b) && Score(c, b, w, f) > 0.0 &&
     (forall j: byte :: Accepted(c, j) ==> Score(c, j, w, f) <= Score(c, b, w, f)) &&
     (forall j: byte :: j < b && Accepted(c, j) ==> Score(c, j, w, f) < Score(c, b, w, f)))
    ||
    (b == 0 && forall j: byte :: Accepted(c, j) ==> Score(c, j, w, f) <= 0.0)
  }

  /** The choice is determined by the class: two bytes that both qualify are equal. */
  lemma ChosenKeyByteUnique(c: seq<byte>, w: real, f: seq<real>, a: byte, b: byte)
    requires |f| == AlphabetSize
    requires ChosenKeyByte(c, w, f, a) && ChosenKeyByte(c, w, f, b)
    ensures a == b
  {
    if Accepted(c, a) && Score(c, a, w, f) > 0.0 && Accepted(c, b) && Score(c, b, w, f) > 0.0 {
      assert Score(c, b, w, f) <= Score(c, a, w, f);
      assert Score(c, a, w, f) <= Score(c, b, w, f);
    }
  }

  /** (a + b) * k == a * k + b * k, kept apart so that no larger proof needs non-linear reasoning. */
  lemma Distribute(a: real, b: real, k: real)
    ensures (a + b) * k == a * k + b * k
    ensures k * (a + b) == k * a + k * b
  {
  }

  lemma ZeroProduct(a: real, b: real)
    requires a == 0.0
    ensures a * b == 0.0
  {
  }

  lemma ProductNonNegative(a: real, b: real)
    requires a >= 0.0 && b >= 0.0
    ensures a * b >= 0.0
  {
  }

  lemma FoldedAppend(c: seq<byte>, x: byte, j: byte)
    ensures Folded(c + [x], j) == Folded(c, j) + [ToLowerAscii(Xor(x, j))]
  {
  }

  /** Counting one more byte adds `w` to its bucket only. */
  lemma ObservedAppend(t: seq<byte>, y: byte, w: real)
    ensures Observed(t + [y], w) == Observed(t, w)[y := Observed(t, w)[y] + w]
  {
    var o, o2 := Observed(t, w), Observed(t + [y], w);
    forall v | 0 <= v < AlphabetSize
      ensures o2[v] == o[y := o[y] + w][v]
    {
      ObservedAppendAt(t, y, w, v);
    }
  }

  /** Bucket v of the table after counting `y`. */
  lemma ObservedAppendAt(t: seq<byte>, y: byte, w: real, v: nat)
    requires v < AlphabetSize
    ensures Observed(t + [y], w)[v] == if v == y then Observed(t, w)[v] + w else Observed(t, w)[v]
  {
    var h, h2 := Histogram(t), Histogram(t + [y]);
    HistogramAppend(t, y);
    assert h2[v] == if v == y then h[v] + 1 else h[v];
    if v == y {
      Distribute(h[y] as real, 1.0, w);
    }
  }

  /** One more byte `y` raises the dot product by `w` times its reference frequency. */
  lemma DotAppend(t: seq<byte>, y: byte, w: real, f: seq<real>)
    requires |f| == AlphabetSize
    ensures Dot(Observed(t + [y], w), f) == Dot(Observed(t, w), f) + w * f[y]
  {
    ObservedAppend(t, y, w);
    var before := Products(Observed(t, w), f);
    var after := Products(Observed(t + [y], w), f);
    forall v | 0 <= v < AlphabetSize
      ensures after[v] == before[y := before[y] + w * f[y]][v]
    {
      if v == y {
        Distribute(Observed(t, w)[y], w, f[y]);
      }
    }
    assert after == before[y := before[y] + w * f[y]];
    TotalBump(before, y, w * f[y]);
  }

  /** The reference frequency of each byte of `t`, in order. */
  function FrequenciesOf(t: seq<byte>, f: seq<real>): (r: seq<real>)
    requires |f| == AlphabetSize
    ensures |r| == |t|
  {
    seq(|t|, k requires 0 <= k < |t| => f[t[k]])
  }

  /** The dot product of the table of `t` is `w` times the sum of the reference frequencies of its bytes. */
  lemma {:induction false} DotBySymbols(t: seq<byte>, w: real, f: seq<real>)
    requires |f| == AlphabetSize
    ensures Dot(Observed(t, w), f) == w * Total(FrequenciesOf(t, f))
    decreases |t|
  {
    if |t| == 0 {
      var terms := Products(Observed(t, w), f);
      forall v | 0 <= v < AlphabetSize
        ensures terms[v] == 0.0
      {
        assert Histogram(t)[v] == 0;
        ZeroProduct(Histogram(t)[v] as real, w);
        ZeroProduct(Observed(t, w)[v], f[v]);
      }
      TotalOfZeros(terms);
    } else {
      var n := |t| - 1;
      DotBySymbols(t[..n], w, f);
      assert t[..n] + [t[n]] == t;
      DotAppend(t[..n], t[n], w, f);
      assert FrequenciesOf(t, f)[..n] == FrequenciesOf(t[..n], f);
      Distribute(Total(FrequenciesOf(t[..n], f)), f[t[n]], w);
    }
  }

  /** With a non-negative table and weight, every score is non-negative. */
  lemma ScoreNonNegative(c: seq<byte>, j: byte, w: real, f: seq<real>)
    requires |f| == AlphabetSize && w >= 0.0
    requires forall v :: 0 <= v < AlphabetSize ==> f[v] >= 0.0
    ensures Score(c, j, w, f) >= 0.0
  {
    var terms := FrequenciesOf(Folded(c, j), f);
    assert forall k :: 0 <= k < |terms| ==> terms[k] >= 0.0;
    TotalNonNegative(terms);
    ProductNonNegative(w, Total(terms));
  }

  /** The validity loop: is candidate `j` accepted for the class of position `i`? */
  method IsPrintableUnder(input: array<byte>, keyLen: nat, i: nat, j: byte) returns (valid: bool)
    requires keyLen >= 1
    ensures valid == Accepted(Stride(input[..], i, keyLen), j)
  {
    valid := true;
    ghost var done: seq<byte> := [];
    var pos := i;
    while pos < input.Length
      invariant done + Stride(input[..], pos, keyLen) == Stride(input[..], i, keyLen)
      invariant Accepted(done, j)
      decreases input.Length - pos
    {
      var b := Xor(input[pos], j);
      assert Stride(input[..], pos, keyLen) == [input[pos]] + Stride(input[..], pos + keyLen, keyLen);
      if b < 32 || b > 127 {
        // A non-printable byte: discard the candidate.
        assert Stride(input[..], i, keyLen)[|done|] == input[pos];
        valid := false;
        break;
      }
      StrideAdvance(input[..], i, keyLen, pos, done);
      done := done + [input[pos]];
      pos := pos + keyLen;
    }
  }

  /** 1 / (n / keyLen) is the weight keyLen / n. */
  lemma ReciprocalDivisor(n: nat, keyLen: nat)
    requires n >= 1 && keyLen >= 1
    ensures n as real / keyLen as real > 0.0
    ensures 1.0 / (n as real / keyLen as real) == Weight(n, keyLen)
  {
    var d := n as real / keyLen as real;
    assert d * keyLen as real == n as real;
    assert d > 0.0;
    assert (keyLen as real / n as real) * d == 1.0;
  }

  /**
   * The tabulation loop for an accepted candidate: each byte of the class of
   * position `i`, decrypted with `j` and lower-cased, adds 1 / divisor to its bucket.
   */
  method ObservedFrequencies(input: array<byte>, keyLen: nat, i: nat, j: byte, divisor: real)
    returns (observedFreqs: array<real>)
    requires keyLen >= 1
    requires divisor == input.Length as real / keyLen as real
    ensures fresh(observedFreqs)
    ensures observedFreqs[..] == Observed(Folded(Stride(input[..], i, keyLen), j), Weight(input.Length, keyLen))
  {
    ghost var s := input[..];
    ghost var w := Weight(input.Length, keyLen);
    observedFreqs := new real[AlphabetSize](_ => 0.0);
    ghost var done: seq<byte> := [];
    forall v | 0 <= v < AlphabetSize
      ensures observedFreqs[v] == Observed(Folded(done, j), w)[v]
    {
      assert Histogram(Folded(done, j))[v] == 0;
    }
    assert observedFreqs[..] == Observed(Folded(done, j), w);
    var pos := i;
    while pos < input.Length
      invariant done + Stride(s, pos, keyLen) == Stride(s, i, keyLen)
      invariant observedFreqs[..] == Observed(Folded(done, j), w)
      decreases input.Length - pos
    {
      var b := Xor(input[pos], j);
      // Consider lower case only.
      var loByte := ToLowerAscii(b);
      ReciprocalDivisor(input.Length, keyLen);
      FoldedAppend(done, input[pos], j);
      ObservedAppend(Folded(done, j), loByte, w);
      observedFreqs[loByte] := observedFreqs[loByte] + 1.0 / divisor;
      StrideAdvance(s, i, keyLen, pos, done);
      done := done + [input[pos]];
      pos := pos + keyLen;
    }
    assert done == Stride(s, i, keyLen);
  }

  /**
   * The scoring of an accepted candidate: the dot product of its observed
   * frequencies with `freqs`, formed as the product array and then summed.
   */
  method CandidateScore(input: array<byte>, keyLen: nat, i: nat, j: byte, divisor: real, freqs: array<real>)
    returns (sum: real)
    requires keyLen >= 1 && freqs.Length == AlphabetSize
    requires divisor == input.Length as real / keyLen as real
    ensures sum == Score(Stride(input[..], i, keyLen), j, Weight(input.Length, keyLen), freqs[..])
  {
    var observedFreqs := ObservedFrequencies(input, keyLen, i, j, divisor);
    ghost var o, f := observedFreqs[..], freqs[..];
    var result := new real[AlphabetSize](_ => 0.0);
    for k := 0 to AlphabetSize
      invariant observedFreqs[..] == o && freqs[..] == f
      invariant forall v :: 0 <= v < k ==> result[v] == o[v] * f[v]
    {
      result[k] := observedFreqs[k] * freqs[k];
    }
    assert |o| == AlphabetSize && |f| == AlphabetSize;
    forall v | 0 <= v < AlphabetSize
      ensures result[..][v] == Products(o, f)[v]
    {
    }
    assert result[..] == Products(o, f);
    sum := Total(result[..]);
  }

  /** The search over candidate bytes 0..255 for the class of position `i`. */
  method BestKeyByte(input: array<byte>, keyLen: nat, i: nat, divisor: real, freqs: array<real>)
    returns (found: byte)
    requires keyLen >= 1 && freqs.Length == AlphabetSize
    requires divisor == input.Length as real / keyLen as real
    ensures ChosenKeyByte(Stride(input[..], i, keyLen), Weight(input.Length, keyLen), freqs[..], found)
  {
    ghost var c := Stride(input[..], i, keyLen);
    ghost var w := Weight(input.Length, keyLen);
    var maxSum := 0.0;
    found := 0;
    for j := 0 to AlphabetSize
      invariant found == 0 || found < j
      invariant maxSum == 0.0 ==> found == 0
      invariant maxSum > 0.0 ==> Accepted(c, found) && Score(c, found, w, freqs[..]) == maxSum
      invariant maxSum >= 0.0
      invariant forall k: byte :: k < j && Accepted(c, k) ==> Score(c, k, w, freqs[..]) <= maxSum
      invariant forall k: byte :: k < found && Accepted(c, k) ==> Score(c, k, w, freqs[..]) < maxSum
    {
      var valid := IsPrintableUnder(input, keyLen, i, j);
      if valid {
        var sum := CandidateScore(input, keyLen, i, j, divisor, freqs);
        // The highest match is the most likely key byte; ties keep the lower one.
        if maxSum < sum {
          maxSum := sum;
          found := j;
        }
      }
    }
  }

  /** Recovers every byte of a key of length `keyLen`, one residue class at a time. */
  method RecoverKey(input: array<byte>, keyLen: nat, freqs: array<real>) returns (key: array<byte>)
    requires keyLen >= 1 && freqs.Length == AlphabetSize
    ensures fresh(key) && key.Length == keyLen
    ensures forall i :: 0 <= i < keyLen ==>
      ChosenKeyByte(Stride(input[..], i, keyLen), Weight(input.Length, keyLen), freqs[..], key[i])
  {
    ghost var s, w, f := input[..], Weight(input.Length, keyLen), freqs[..];
    var divisor := input.Length as real / keyLen as real;
    key := new byte[keyLen](_ => 0);
    for i := 0 to keyLen
      invariant forall k :: 0 <= k < i ==> ChosenKeyByte(Stride(s, k, keyLen), w, f, key[k])
    {
      var found := BestKeyByte(input, keyLen, i, divisor, freqs);
      key[i] := found;
    }
  }
}
