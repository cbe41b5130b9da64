// The cipher breaker as one object: the constructor parses the hex
// ciphertext into the readonly input array, ComputeKeyLength estimates the
// key length and ComputeKey recovers the key and decodes the text.
module Vegenere {
  import opened Bytes
  import opened Strides
  import opened Hex
  import opened Frequencies
  import opened KeyLength
  import opened KeyRecovery
  import opened Decode
  import opened Sums

  /** The embedded ciphertext, as hex text. */
  const Input: string := "F96DE8C227A259C87EE1DA2AED57C93FE5DA36ED4EC87EF2C63AAE5B9A7EFFD673BE4ACF7BE8923CAB1ECE7AF2DA3DA44FCF7AE29235A24C963FF0DF3CA3599A70E5DA36BF1ECE77F8DC34BE129A6CF4D126BF5B9A7CFEDF3EB850D37CF0C63AA2509A76FF9227A55B9A6FE3D720A850D97AB1DD35ED5FCE6BF0D138A84CC931B1F121B44ECE70F6C032BD56C33FF9D320ED5CDF7AFF9226BE5BDE3FF7DD21ED56CF71F5C036A94D963FF8D473A351CE3FE5DA3CB84DDB71F5C17FED51DC3FE8D732BF4D963FF3C727ED4AC87EF5DB27A451D47EFD9230BF47CA6BFEC12ABE4ADF72E29224A84CDF3FF5D720A459D47AF59232A35A9A7AE7D33FB85FCE7AF5923AA31EDB3FF7D33ABF52C33FF0D673A551D93FFCD33DA35BC831B1F43CBF1EDF67F0DF23A15B963FE5DA36ED68D378F4DC36BF5B9A7AFFD121B44ECE76FEDC73BE5DD27AFCD773BA5FC93FE5DA3CB859D26BB1C63CED5CDF3FE2D730B84CDF3FF7DD21ED5ADF7CF0D636BE1EDB79E5D721ED57CE3FE6D320ED57D469F4DC27A85A963FF3C727ED49DF3FFFDD24ED55D470E69E73AC50DE3FE5DA3ABE1EDF67F4C030A44DDF3FF5D73EA250C96BE3D327A84D963FE5DA32B91ED36BB1D132A31ED87AB1D021A255DF71B1C436BF479A7AF0C13AA14794"

  /** The embedded text has 940 hex digits, so it parses to 470 bytes. */
  lemma InputLength()
    ensures |Input| == 940 && |Input| / 2 == 470
  {
  }

  class Vegenere {
    /** The ciphertext bytes. */
    const input: array<byte>

    /** Parses `text` two hex digits at a time into `input`. */
    constructor(text: string)
      requires ParsablePairs(text)
      ensures fresh(input)
      ensures input.Length == |text| / 2
      ensures input[..] == HexDecode(text)
    {
      input := new byte[|text| / 2](_ => 0);
      new;
      for i := 0 to |text| / 2
        invariant forall k :: 0 <= k < i ==> input[k] == HexDecode(text)[k]
      {
        input[i] := ParseHexByte(text[i * 2], text[i * 2 + 1]);
      }
    }

    /**
     * Scores every candidate length 1..MaxKeyLength by the coset of its
     * multiples and keeps the first strict maximum, starting from 0.
     */
    method ComputeKeyLength() returns (maxLen: int)
      ensures IsBestLength(input[..], maxLen)
      ensures 0 <= maxLen <= MaxKeyLength
      ensures maxLen >= 1 <==> input.Length >= 2
    {
      ghost var s := input[..];
      ghost var sc := LengthScores(s);
      var max := 0.0;
      maxLen := 0;
      var i := 1;
      while i <= MaxKeyLength
        invariant ScanState(sc, |s|, i, max, maxLen)
      {
        var bytes, counted := CosetHistogram(input, i);
        // An empty coset makes every ratio 0 / 0, a NaN, and NaN > max is false.
        if counted > 0 {
          // The highest sum of squares gives the most likely key length.
          var sum := Total(SquaredRatios(bytes[..], counted));
          assert sum == sc[i];
          if sum > max {
            ScanTakes(sc, |s|, i, max, maxLen);
            max := sum;
            maxLen := i;
          } else {
            ScanKeeps(sc, |s|, i, max, maxLen);
          }
        } else {
          ScanKeeps(sc, |s|, i, max, maxLen);
        }
        i := i + 1;
      }
      ScanFinishes(sc, |s|, max, maxLen);
    }

    /**
     * Estimates the key length, recovers each key byte against the English
     * table and decodes the ciphertext with the recovered key.
     */
    method ComputeKey() returns (key: array<byte>, xored: array<byte>)
      requires input.Length >= 2
      ensures fresh(key) && fresh(xored)
      ensures 1 <= key.Length <= MaxKeyLength && IsBestLength(input[..], key.Length)
      ensures forall i :: 0 <= i < key.Length ==>
        ChosenKeyByte(Stride(input[..], i, key.Length), Weight(input.Length, key.Length), EnglishFrequencies(), key[i])
      ensures xored[..] == RepeatingXor(input[..], key[..])
      ensures (forall i {:trigger key[i]} :: 0 <= i < key.Length ==> Accepted(Stride(input[..], i, key.Length), key[i])) <==>
              (forall p :: 0 <= p < xored.Length ==> Printable(xored[p]))
    {
      var keyLen := ComputeKeyLength();
      var freqs := EnglishLetterFrequencies();
      key := RecoverKey(input, keyLen, freqs);
      xored := XorDecode(input, key);
      DecodedPrintable(input[..], key[..]);
    }
  }
}
