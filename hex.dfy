// Hexadecimal text to bytes, as `byte.Parse(pair, NumberStyles.HexNumber)`
// applied to consecutive two-character pairs.
module Hex {
  import opened Bytes

  predicate IsHexDigit(c: char)
  {
    '0' <= c <= '9' || 'A' <= c <= 'F' || 'a' <= c <= 'f'
  }

  /** The value of one hex digit; both letter cases are accepted. */
  function HexVal(c: char): (r: nat)
    requires IsHexDigit(c)
    ensures r < 16
  {
    if '0' <= c <= '9' then c as int - '0' as int
    else if 'A' <= c <= 'F' then c as int - 'A' as int + 10
    else c as int - 'a' as int + 10
  }

  /** Every character that is read as part of a pair is a hex digit (a trailing odd character is never read). */
  predicate ParsablePairs(text: string)
  {
    forall i :: 0 <= i < |text| / 2 * 2 ==> IsHexDigit(text[i])
  }

  /** One two-digit pair, high digit first. */
  function ParseHexByte(hi: char, lo: char): (r: byte)
    requires IsHexDigit(hi) && IsHexDigit(lo)
    ensures r / 16 == HexVal(hi) && r % 16 == HexVal(lo)
  {
    16 * HexVal(hi) + HexVal(lo)
  }

  /** The bytes spelled by `text`, one per two characters. */
  function HexDecode(text: string): (r: seq<byte>)
    requires ParsablePairs(text)
    ensures |r| == |text| / 2
  {
    seq(|text| / 2, i requires 0 <= i < |text| / 2 => ParseHexByte(text[2 * i], text[2 * i + 1]))
  }

  /** The upper-case hex digit of a value below 16. */
  function HexDigit(v: nat): (c: char)
    requires v < 16
    ensures IsHexDigit(c) && HexVal(c) == v
  {
    if v < 10 then ('0' as int + v) as char else ('A' as int + v - 10) as char
  }

  /** Two upper-case hex digits per byte, high digit first. */
  function HexEncode(b: seq<byte>): (t: string)
    ensures |t| == 2 * |b|
  {
    if b == [] then [] else [HexDigit(b[0] / 16), HexDigit(b[0] % 16)] + HexEncode(b[1..])
  }

  lemma {:induction false} HexEncodeAt(b: seq<byte>, i: nat)
    requires i < |b|
    ensures HexEncode(b)[2 * i] == HexDigit(b[i] / 16)
    ensures HexEncode(b)[2 * i + 1] == HexDigit(b[i] % 16)
    decreases i
  {
    if i > 0 {
      HexEncodeAt(b[1..], i - 1);
    }
  }

  /** Decoding the hex text of any byte sequence gives that sequence back. */
  lemma HexRoundTrip(b: seq<byte>)
    ensures ParsablePairs(HexEncode(b))
    ensures HexDecode(HexEncode(b)) == b
  {
    var t := HexEncode(b);
    forall i | 0 <= i < |t| / 2 * 2
      ensures IsHexDigit(t[i])
    {
      HexEncodeAt(b, i / 2);
      assert i == 2 * (i / 2) || i == 2 * (i / 2) + 1;
    }
    forall i | 0 <= i < |b|
      ensures HexDecode(t)[i] == b[i]
    {
      HexEncodeAt(b, i);
    }
  }
}
