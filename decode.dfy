// Repeating-key XOR: decoding (and, being an involution, encoding) a byte
// sequence with a key repeated cyclically.
module Decode {
  import opened Bytes
  import opened Strides
  import opened KeyRecovery

  /** Byte i of the result is byte i of `s` XOR key byte i mod |key|. */
  function RepeatingXor(s: seq<byte>, key: seq<byte>): (r: seq<byte>)
    requires |key| >= 1
    ensures |r| == |s|
  {
    seq(|s|, i requires 0 <= i < |s| => Xor(s[i], key[i % |key|]))
  }

  /** Applying the same key twice gives the input back. */
  lemma RepeatingXorInvolutive(s: seq<byte>, key: seq<byte>)
    requires |key| >= 1
    ensures RepeatingXor(RepeatingXor(s, key), key) == s
  {
    var once := RepeatingXor(s, key);
    forall i | 0 <= i < |s|
      ensures RepeatingXor(once, key)[i] == s[i]
    {
      XorInvolutive(s[i], key[i % |key|]);
    }
  }

  lemma ProductAtLeast(k: int, L: int)
    requires k >= 1 && L >= 1
    ensures k * L >= L
  {
  }

  /** Euclidean division is unique: x == q * L + r with 0 <= r < L fixes x % L and x / L. */
  lemma DivModUnique(x: int, L: int, q: int, r: int)
    requires L >= 1 && 0 <= r < L && x == q * L + r
    ensures x % L == r && x / L == q
  {
    var d := q - x / L;
    assert d * L == x % L - r;
    if d >= 1 {
      ProductAtLeast(d, L);
    } else if d <= -1 {
      ProductAtLeast(-d, L);
    }
  }

  /** Position i + m * L of residue i below L has residue i and quotient m. */
  lemma ClassResidue(i: nat, m: nat, L: nat)
    requires L >= 1 && i < L
    ensures (i + m * L) % L == i
  {
    DivModUnique(i + m * L, L, m, i);
  }

  /** Element m of the class of key position i sits at position i + m * L, which has residue i. */
  lemma ClassPosition(s: seq<byte>, L: nat, i: nat, m: nat)
    requires L >= 1 && i < L
    requires m < |Stride(s, i, L)|
    ensures i + m * L < |s|
    ensures (i + m * L) % L == i
    ensures Stride(s, i, L)[m] == s[i + m * L]
  {
    StrideElement(s, i, L, m);
    ClassResidue(i, m, L);
  }

  /** A key byte accepted for the class of position p decodes the byte at p to a printable byte. */
  lemma AcceptedClassDecodesPrintable(s: seq<byte>, L: nat, p: nat, kb: byte)
    requires L >= 1 && p < |s|
    requires Accepted(Stride(s, p % L, L), kb)
    ensures Printable(Xor(s[p], kb))
  {
    var c, q := Stride(s, p % L, L), p / L;
    ResidueMember(s, L, p);
    assert q < |c| && c[q] == s[p];
    assert Printable(Xor(c[q], kb));
  }

  /** A printable decoding makes every key byte accepted for its class. */
  lemma PrintableDecodingAcceptsKey(s: seq<byte>, key: seq<byte>, i: nat)
    requires |key| >= 1 && i < |key|
    requires forall p :: 0 <= p < |s| ==> Printable(RepeatingXor(s, key)[p])
    ensures Accepted(Stride(s, i, |key|), key[i])
  {
    var L := |key|;
    forall m | 0 <= m < |Stride(s, i, L)|
      ensures Printable(Xor(Stride(s, i, L)[m], key[i]))
    {
      ClassPosition(s, L, i, m);
      assert Printable(RepeatingXor(s, key)[i + m * L]);
    }
  }

  /**
   * The printability filter's guarantee: the decoded text is printable
   * throughout exactly when every key byte is accepted for its residue class.
   */
  lemma DecodedPrintable(s: seq<byte>, key: seq<byte>)
    requires |key| >= 1
    ensures (forall i {:trigger key[i]} :: 0 <= i < |key| ==> Accepted(Stride(s, i, |key|), key[i])) <==>
            (forall p :: 0 <= p < |s| ==> Printable(RepeatingXor(s, key)[p]))
  {
    if forall i {:trigger key[i]} :: 0 <= i < |key| ==> Accepted(Stride(s, i, |key|), key[i]) {
      forall p | 0 <= p < |s|
        ensures Printable(RepeatingXor(s, key)[p])
      {
        var i := p % |key|;
        assert Accepted(Stride(s, i, |key|), key[i]);
        AcceptedClassDecodesPrintable(s, |key|, p, key[i]);
        assert RepeatingXor(s, key)[p] == Xor(s[p], key[i]);
      }
    }
    if forall p :: 0 <= p < |s| ==> Printable(RepeatingXor(s, key)[p]) {
      forall i | 0 <= i < |key|
        ensures Accepted(Stride(s, i, |key|), key[i])
      {
        PrintableDecodingAcceptsKey(s, key, i);
      }
    }
  }

  /** The decoding loop: `xored[i] = input[i] ^ key[i % keyLen]`. */
  method XorDecode(input: array<byte>, key: array<byte>) returns (xored: array<byte>)
    requires key.Length >= 1
    ensures fresh(xored) && xored[..] == RepeatingXor(input[..], key[..])
  {
    xored := new byte[input.Length](_ => 0);
    for i := 0 to input.Length
      invariant forall k :: 0 <= k < i ==> xored[k] == Xor(input[k], key[k % key.Length])
    {
      var d := Xor(input[i], key[i % key.Length]);
      xored[i] := d;
    }
  }
}
