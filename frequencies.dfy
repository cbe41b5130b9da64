// The reference English letter-frequency table consulted when scoring key bytes.
module Frequencies {
  import opened Bytes
  import opened Sums

  /** Percent frequency of 'a'..'z' in English text, in alphabetical order. */
  const LetterPercents: seq<real> := [
    8.167, 1.492, 2.782, 4.253, 12.702, 2.228, 2.015, 6.094, 6.966, 0.153, 0.772, 4.025, 2.406,
    6.749, 7.507, 1.929, 0.095, 5.987, 6.327, 9.056, 2.758, 0.978, 2.361, 0.15, 1.974, 0.074]

  /** The percentage the table lists for byte value b: non-zero only for 'a'..'z'. */
  function Percent(b: int): real
  {
    if 'a' as int <= b <= 'z' as int then LetterPercents[b - 'a' as int] else 0.0
  }

  /** The table as probabilities: each listed percentage divided by 100. */
  function EnglishFrequencies(): (f: seq<real>)
    ensures |f| == AlphabetSize
  {
    seq(AlphabetSize, b => Percent(b) / 100.0)
  }

  /** Every entry is a probability, and exactly the lower-case letters have a non-zero one. */
  lemma FrequenciesAreProbabilities()
    ensures forall b :: 0 <= b < AlphabetSize ==> 0.0 <= EnglishFrequencies()[b] < 1.0
    ensures forall b :: 0 <= b < AlphabetSize ==>
      (EnglishFrequencies()[b] > 0.0 <==> 'a' as int <= b <= 'z' as int)
  {
    forall b | 0 <= b < AlphabetSize
      ensures 0.0 <= EnglishFrequencies()[b] < 1.0
      ensures EnglishFrequencies()[b] > 0.0 <==> 'a' as int <= b <= 'z' as int
    {
      if 'a' as int <= b <= 'z' as int {
        var k := b - 'a' as int;
        assert 0.0 < LetterPercents[k] < 100.0;
      }
    }
  }

  /** The listed percentages add up to exactly 100. */
  lemma LetterPercentsTotal()
    ensures Total(LetterPercents) == 100.0
  {
    assert Total(LetterPercents[..0]) == 0.0;
    assert LetterPercents[..1][..0] == LetterPercents[..0];
    assert Total(LetterPercents[..1]) == 8.167;
    assert LetterPercents[..2][..1] == LetterPercents[..1];
    assert Total(LetterPercents[..2]) == 9.659;
    assert LetterPercents[..3][..2] == LetterPercents[..2];
    assert Total(LetterPercents[..3]) == 12.441;
    assert LetterPercents[..4][..3] == LetterPercents[..3];
    assert Total(LetterPercents[..4]) == 16.694;
    assert LetterPercents[..5][..4] == LetterPercents[..4];
    assert Total(LetterPercents[..5]) == 29.396;
    assert LetterPercents[..6][..5] == LetterPercents[..5];
    assert Total(LetterPercents[..6]) == 31.624;
    assert LetterPercents[..7][..6] == LetterPercents[..6];
    assert Total(LetterPercents[..7]) == 33.639;
    assert LetterPercents[..8][..7] == LetterPercents[..7];
    assert Total(LetterPercents[..8]) == 39.733;
    assert LetterPercents[..9][..8] == LetterPercents[..8];
    assert Total(LetterPercents[..9]) == 46.699;
    assert LetterPercents[..10][..9] == LetterPercents[..9];
    assert Total(LetterPercents[..10]) == 46.852;
    assert LetterPercents[..11][..10] == LetterPercents[..10];
    assert Total(LetterPercents[..11]) == 47.624;
    assert LetterPercents[..12][..11] == LetterPercents[..11];
    assert Total(LetterPercents[..12]) == 51.649;
    assert LetterPercents[..13][..12] == LetterPercents[..12];
    assert Total(LetterPercents[..13]) == 54.055;
    assert LetterPercents[..14][..13] == LetterPercents[..13];
    assert Total(LetterPercents[..14]) == 60.804;
    assert LetterPercents[..15][..14] == LetterPercents[..14];
    assert Total(LetterPercents[..15]) == 68.311;
    assert LetterPercents[..16][..15] == LetterPercents[..15];
    assert Total(LetterPercents[..16]) == 70.240;
    assert LetterPercents[..17][..16] == LetterPercents[..16];
    assert Total(LetterPercents[..17]) == 70.335;
    assert LetterPercents[..18][..17] == LetterPercents[..17];
    assert Total(LetterPercents[..18]) == 76.322;
    assert LetterPercents[..19][..18] == LetterPercents[..18];
    assert Total(LetterPercents[..19]) == 82.649;
    assert LetterPercents[..20][..19] == LetterPercents[..19];
    assert Total(LetterPercents[..20]) == 91.705;
    assert LetterPercents[..21][..20] == LetterPercents[..20];
    assert Total(LetterPercents[..21]) == 94.463;
    assert LetterPercents[..22][..21] == LetterPercents[..21];
    assert Total(LetterPercents[..22]) == 95.441;
    assert LetterPercents[..23][..22] == LetterPercents[..22];
    assert Total(LetterPercents[..23]) == 97.802;
    assert LetterPercents[..24][..23] == LetterPercents[..23];
    assert Total(LetterPercents[..24]) == 97.952;
    assert LetterPercents[..25][..24] == LetterPercents[..24];
    assert Total(LetterPercents[..25]) == 99.926;
    assert LetterPercents[..26][..25] == LetterPercents[..25];
    assert Total(LetterPercents[..26]) == 100.000;
    assert LetterPercents[..26] == LetterPercents;
  }

  /** The table up to letter n sums to the first n percentages, divided by 100. */
  lemma {:induction false} TotalOfLetters(n: nat)
    requires n <= |LetterPercents|
    ensures Total(EnglishFrequencies()[..'a' as int + n]) == Total(LetterPercents[..n]) / 100.0
  {
    if n == 0 {
      NothingBeforeLetters();
    } else {
      TotalOfLetters(n - 1);
      LetterStep(n);
    }
  }

  /** The entries below 'a' are all zero. */
  lemma NothingBeforeLetters()
    ensures Total(EnglishFrequencies()[..'a' as int]) == 0.0
  {
    var f := EnglishFrequencies();
    var k := 0;
    while k < 'a' as int
      invariant 0 <= k <= 'a' as int
      invariant Total(f[..k]) == 0.0
    {
      assert f[..k + 1][..k] == f[..k];
      k := k + 1;
    }
  }

  /** Letter n adds its percentage divided by 100 to the table's running sum. */
  lemma LetterStep(n: nat)
    requires 1 <= n <= |LetterPercents|
    ensures Total(EnglishFrequencies()[..'a' as int + n]) == Total(EnglishFrequencies()[..'a' as int + n - 1]) + LetterPercents[n - 1] / 100.0
    ensures Total(LetterPercents[..n]) == Total(LetterPercents[..n - 1]) + LetterPercents[n - 1]
  {
    var f := EnglishFrequencies();
    var k := 'a' as int + n;
    assert f[k - 1] == LetterPercents[n - 1] / 100.0;
    assert f[..k][..k - 1] == f[..k - 1];
    assert LetterPercents[..n][..n - 1] == LetterPercents[..n - 1];
  }

  /** The 26 letter probabilities add up to exactly 1. */
  lemma FrequenciesSumToOne()
    ensures Total(EnglishFrequencies()) == 1.0
  {
    var f := EnglishFrequencies();
    TotalOfLetters(26);
    LetterPercentsTotal();
    assert LetterPercents[..26] == LetterPercents;
    var k := 'z' as int + 1;
    while k < AlphabetSize
      invariant 'z' as int + 1 <= k <= AlphabetSize
      invariant Total(f[..k]) == 1.0
    {
      assert f[..k + 1][..k] == f[..k];
      k := k + 1;
    }
    assert f[..AlphabetSize] == f;
  }

  /**
   * Builds the table as the source does: zeros, the 26 listed percentages,
   * then every entry divided by 100 in place.
   */
  method EnglishLetterFrequencies() returns (ret: array<real>)
    ensures fresh(ret) && ret.Length == AlphabetSize
    ensures ret[..] == EnglishFrequencies()
  {
    ret := new real[AlphabetSize](_ => 0.0);
    // The 26 listed percentages go to the buckets 'a'..'z'.
    for c := 0 to |LetterPercents|
      invariant forall b :: 0 <= b < AlphabetSize ==>
        ret[b] == if 'a' as int <= b < 'a' as int + c then Percent(b) else 0.0
    {
      ret['a' as int + c] := LetterPercents[c];
    }

    var i := 0;
    while i < ret.Length
      invariant 0 <= i <= ret.Length
      invariant forall b :: 0 <= b < i ==> ret[b] == Percent(b) / 100.0
      invariant forall b :: i <= b < AlphabetSize ==> ret[b] == Percent(b)
    {
      ret[i] := ret[i] / 100.0;
      i := i + 1;
    }
  }
}
