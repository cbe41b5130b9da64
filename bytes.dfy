// Byte-level primitives shared by every stage of the cipher breaker:
// the byte type, XOR, the printability test and ASCII lower-casing.
module Bytes {

  /** An unsigned 8-bit value, as C#'s `byte`. */
  type byte = x: int | 0 <= x < 256

  /** The number of byte values: the length of every histogram and frequency table. */
  const AlphabetSize: nat := 256

  /** 2 to the power n. */
  function Pow2(n: nat): (r: nat)
    ensures r >= 1
  {
    if n == 0 then 1 else 2 * Pow2(n - 1)
  }

  /** Bitwise exclusive or of two naturals, lowest bit first. */
  function XorNat(a: nat, b: nat): nat
    decreases a + b
  {
    if a == 0 && b == 0 then 0 else (a + b) % 2 + 2 * XorNat(a / 2, b / 2)
  }

  /** XOR of two n-bit values is an n-bit value. */
  lemma {:induction false} XorNatBound(a: nat, b: nat, n: nat)
    requires a < Pow2(n) && b < Pow2(n)
    ensures XorNat(a, b) < Pow2(n)
    decreases n
  {
    if n > 0 && !(a == 0 && b == 0) {
      XorNatBound(a / 2, b / 2, n - 1);
    }
  }

  /**
   * Bitwise exclusive or of two bytes (C#'s `^` on byte operands): XOR with 0
   * changes nothing, and the result is 0 exactly when the operands are equal.
   */
  function Xor(a: byte, b: byte): (r: byte)
    ensures b == 0 ==> r == a
    ensures r == 0 <==> a == b
  {
    assert Pow2(8) == 256;
    XorNatBound(a, b, 8);
    XorNatZero(a);
    XorNatZero(b);
    XorNatSelf(a);
    XorNatInvolutive(a, b);
    XorNat(a, b)
  }

  /** XOR with 0, on either side, gives the other operand. */
  lemma {:induction false} XorNatZero(a: nat)
    ensures XorNat(a, 0) == a && XorNat(0, a) == a
  {
    if a != 0 {
      XorNatStep(a, 0);
      XorNatStep(0, a);
      XorNatZero(a / 2);
      SameDigits(XorNat(a, 0), a);
      SameDigits(XorNat(0, a), a);
    }
  }

  /** XOR of a number with itself is 0. */
  lemma {:induction false} XorNatSelf(a: nat)
    ensures XorNat(a, a) == 0
  {
    if a != 0 {
      XorNatStep(a, a);
      XorNatSelf(a / 2);
      SameDigits(XorNat(a, a), 0);
    }
  }

  /** Division by 2 of a number written as its low bit plus twice the rest. */
  lemma HalveDigits(x: int, bit: int, q: int)
    requires 0 <= bit < 2 && x == bit + 2 * q
    ensures x / 2 == q && x % 2 == bit
  {
  }

  /** Two naturals with the same low bit and the same half are equal. */
  lemma SameDigits(x: nat, a: nat)
    requires x / 2 == a / 2 && x % 2 == a % 2
    ensures x == a
  {
  }

  /** Adding k to a number with the parity of a + k gives the parity of a. */
  lemma ParityCancel(a: nat, k: nat, r: nat)
    requires r % 2 == (a + k) % 2
    ensures (r + k) % 2 == a % 2
  {
  }

  /** One step of XorNat: the low bit is the parity of the sum, the rest is the XOR of the halves. */
  lemma XorNatStep(a: nat, b: nat)
    ensures XorNat(a, b) % 2 == (a + b) % 2
    ensures XorNat(a, b) / 2 == XorNat(a / 2, b / 2)
  {
    var q := XorNat(a / 2, b / 2);
    if a == 0 && b == 0 {
      assert q == 0;
    } else {
      HalveDigits(XorNat(a, b), (a + b) % 2, q);
    }
  }

  /** XOR with the same value twice gives the original value back. */
  lemma {:induction false} XorNatInvolutive(a: nat, k: nat)
    ensures XorNat(XorNat(a, k), k) == a
    decreases a + k
  {
    if !(a == 0 && k == 0) {
      var r := XorNat(a, k);
      XorNatStep(a, k);
      XorNatStep(r, k);
      XorNatInvolutive(a / 2, k / 2);
      var x := XorNat(r, k);
      ParityCancel(a, k, r);
      SameDigits(x, a);
    }
  }

  /** XOR with the same key byte twice gives the original byte back. */
  lemma XorInvolutive(a: byte, k: byte)
    ensures Xor(Xor(a, k), k) == a
  {
    XorNatInvolutive(a, k);
  }

  /** The printable range used by the key-byte filter: 32..127 inclusive. */
  predicate Printable(b: int)
  {
    32 <= b <= 127
  }

  /**
   * `char.ToLower` restricted to ASCII: 'A'..'Z' become 'a'..'z',
   * every other byte is unchanged.
   */
  function ToLowerAscii(b: byte): (r: byte)
    ensures 'A' as int <= b <= 'Z' as int ==> r == b + ('a' as int - 'A' as int)
    ensures !('A' as int <= b <= 'Z' as int) ==> r == b
    ensures Printable(b) ==> Printable(r)
    ensures !('A' as int <= r <= 'Z' as int)
  {
    if 'A' as int <= b <= 'Z' as int then b + 32 else b
  }

  /** Lower-casing maps an upper-case letter and its lower-case form to the same bucket. */
  lemma ToLowerFoldsCase(c: char)
    requires 'a' <= c <= 'z'
    ensures ToLowerAscii(c as int - 32) == c as int
    ensures ToLowerAscii(c as int) == c as int
  {
  }
}
