# Breaking a repeating-key XOR cipher

This project models `Vegenere`, a C# test fixture that breaks a byte-wise Vigenère cipher. In that cipher, byte `i` of the plaintext is XORed with byte `i mod keyLen` of a short key. The model is written in Dafny and its properties are proved by the verifier.

The fixture works in four steps:

1. **Parse.** The constructor reads the embedded ciphertext, written as hex text, two digits per byte, into the read-only `_input` array.
2. **Estimate the key length.** `ComputeKeyLength` scores every length `L` from 1 to 13. It takes the bytes at positions `L, 2L, 3L, …` (position 0 is never used), builds their 256-bucket histogram, and sums the squared relative frequencies of the buckets. The first strict maximum wins. The running maximum starts at 0 and the length at 0.
3. **Recover the key.** `ComputeKey` recovers one key byte per residue class `i` (positions `i, i + keyLen, …`). It tries every candidate byte `j`:
   - `j` is discarded as soon as one decrypted byte falls outside 32..127;
   - otherwise the decrypted bytes are ASCII-lower-cased and tabulated, each adding `1 / divisor`, where `divisor = N / keyLen`;
   - the table is multiplied element-wise with the English letter-frequency table, and the products are summed;
   - the first strictly larger sum wins, starting from 0;
   - the key byte stays 0 when no candidate qualifies.
4. **Decode.** Each ciphertext byte is XORed with the key byte of its residue class.

The model is organised as follows:

| file | module | contents |
|---|---|---|
| `bytes.dfy` | `Bytes` | bytes, XOR (defined arithmetically, bit by bit), the printability test, ASCII lower-casing |
| `sums.dfy` | `Sums` | the finite sums that stand for LINQ `Sum` |
| `strides.dfy` | `Strides` | the positions `start, start + step, …` of an array as one sequence |
| `hex.dfy` | `Hex` | hex parsing, with an encoder used to state the round trip |
| `frequencies.dfy` | `Frequencies` | the English table |
| `histograms.dfy` | `Histograms` | byte counts |
| `key_length.dfy` | `KeyLength` | the length score, the first-strict-maximum scan, the coset histogram loop |
| `key_recovery.dfy` | `KeyRecovery` | the candidate filter, observed table, score and per-class choice, all as loops over arrays |
| `decode.dfy` | `Decode` | the repeating-key XOR |
| `vegenere.dfy` | `Vegenere` | the class with its read-only `input` array, its constructor and its two public methods |

Each loop of the original is a Dafny method with invariants. Each method is proved against a specification function on sequences, and the properties of those functions are proved as lemmas.

The model follows the code in three places where a reader might expect otherwise:

- **No error when no candidate qualifies.** When no candidate byte survives the printability filter, or none scores above 0, the key byte is left at 0. No error is raised.
- **No invalid-argument error.** Nothing checks the input length. With fewer than two input bytes the estimated length is 0, and the `decimal` division at `Vegenere.cs:68` divides by zero. `ComputeKey` therefore requires at least two input bytes.
- **Ciphertext size.** The embedded ciphertext is 940 hex digits, so it parses to 470 bytes.

## Model

| member | source | states |
|---|---|---|
| Vegenere.Vegenere.constructor | Vegenere.cs:22-32 | `input` has one byte per pair of hex digits, and each byte is the value of its pair, high digit first |
| Vegenere.InputLength | Vegenere.cs:18 | the embedded ciphertext has 940 hex digits, so 470 bytes |
| Hex.HexRoundTrip | Vegenere.cs:27-31 | parsing is the inverse of writing bytes as two hex digits each: the digits always parse, and they parse back to the same bytes |
| Hex.HexVal | Vegenere.cs:30 | a hex digit ('0'..'9', 'A'..'F', 'a'..'f') has a value below 16 |
| Hex.ParseHexByte | Vegenere.cs:30 | the parsed byte has the high digit as its upper nibble and the low digit as its lower nibble |
| Hex.HexDecode | Vegenere.cs:22 | the parsed array is half as long as the hex text |
| Vegenere.Vegenere.ComputeKeyLength | Vegenere.cs:34-60 | the result is the first strict maximum of the length scores over 1..13, or 0 when no length has a non-empty coset; it lies in 0..13 and is at least 1 exactly when the input has two or more bytes |
| KeyLength.CosetHistogram | Vegenere.cs:41-48 | the histogram array is the byte count of positions L, 2L, … and `counted` is the number of those positions |
| KeyLength.LengthScore | Vegenere.cs:51 | a length with a non-empty coset (1 ≤ L < N) scores strictly above 0, so the strict comparison with the initial maximum 0 always picks it |
| KeyLength.SquaredRatios | Vegenere.cs:51 | one squared ratio per bucket; it is non-negative for a non-negative count and positive for a non-empty bucket |
| KeyLength.SquaredRatiosPositive | Vegenere.cs:51 | the sum of squared ratios is positive as soon as one bucket is non-empty |
| KeyLength.SquaredRatioSign | Vegenere.cs:51 | proof helper: each squared ratio is non-negative, and positive for a non-empty bucket |
| KeyLength.LengthScores | Vegenere.cs:39-51 | every candidate length with a non-empty coset has a positive score |
| KeyLength.BestLengthUnique | Vegenere.cs:52-56 | the first strict maximum is unique, so the estimate is determined by the input |
| KeyLength.ScanKeeps | Vegenere.cs:52-57 | a candidate that does not beat the maximum, or has an empty coset, keeps the scan state |
| KeyLength.ScanTakes | Vegenere.cs:52-56 | a candidate that beats the maximum becomes the new best length with its score as the maximum |
| KeyLength.ScanFinishes | Vegenere.cs:39-59 | after the last candidate the best so far is the first strict maximum, and it is non-zero exactly when the input has two or more bytes |
| Strides.Stride | Vegenere.cs:43 | the bytes at start, start + step, … below N: empty when start is not below N, otherwise non-empty and no longer than N − start |
| Strides.StrideExactly | Vegenere.cs:43 | the loop `pos = start; pos < N; pos += step` visits exactly the positions start + m·step below N, in order |
| Strides.StrideAdvance | Vegenere.cs:43 | a loop that has collected the bytes before `pos` collects the whole coset after taking `input[pos]` and stepping on |
| Strides.StrideCovers | Vegenere.cs:82 | every position start + m·step below N is visited, as element m |
| Strides.StrideElement | Vegenere.cs:96 | element m of the visited sequence is the byte at start + m·step |
| Strides.MultiplesCoset | Vegenere.cs:43 | the key-length coset is empty exactly when L is not below N; element m is the byte at (m+1)·L; it covers every multiple of L below N except 0 |
| Strides.ResidueMember | Vegenere.cs:129-131 | position p is element p / L of the residue class p mod L |
| Histograms.Histogram | Vegenere.cs:42-47 | 256 buckets, none negative, and bucket v is non-empty exactly when v occurs in the tabulated bytes |
| Histograms.HistogramTotal | Vegenere.cs:46-47 | the histogram counts every tabulated byte once, so its buckets sum to `counted` |
| Histograms.HistogramAppend | Vegenere.cs:46 | tabulating one more byte increments exactly its bucket |
| Sums.TotalAtLeastTerm | Vegenere.cs:51 | a sum of non-negative terms is at least each term |
| Sums.TotalNonNegative | Vegenere.cs:113 | a sum of non-negative terms is non-negative |
| Sums.TotalBump | Vegenere.cs:103 | adding d to one term adds d to the sum |
| Sums.IntTotalBump | Vegenere.cs:46 | adding d to one integer bucket adds d to the sum of the buckets |
| Sums.TotalOfZeros | Vegenere.cs:80 | proof helper: a table of zeros sums to 0 |
| Sums.IntTotalOfZeros | Vegenere.cs:42 | proof helper: a histogram of zeros sums to 0 |
| Frequencies.EnglishLetterFrequencies | Vegenere.cs:150-188 | the table has 256 entries: the 26 English letter percentages divided by 100 at 'a'..'z', and 0 elsewhere |
| Frequencies.FrequenciesAreProbabilities | Vegenere.cs:155-185 | every entry lies in [0, 1), and an entry is positive exactly at the lower-case letters |
| Frequencies.LetterPercentsTotal | Vegenere.cs:155-180 | the 26 percentages add up to exactly 100 |
| Frequencies.TotalOfLetters | Vegenere.cs:182-185 | the table up to letter n sums to the first n percentages divided by 100 |
| Frequencies.NothingBeforeLetters | Vegenere.cs:182-185 | proof helper: the entries below 'a' sum to 0 |
| Frequencies.LetterStep | Vegenere.cs:182-185 | proof helper: one more letter entry adds its percentage divided by 100 to the sum |
| Frequencies.FrequenciesSumToOne | Vegenere.cs:150-188 | the table is a probability distribution: its entries sum to 1 |
| Frequencies.EnglishFrequencies | Vegenere.cs:152 | the table has one entry per byte value |
| Bytes.Xor | Vegenere.cs:84 | the C# `^` on bytes: XOR with 0 leaves a byte unchanged, and the result is 0 exactly when the operands are equal |
| Bytes.XorNatZero | Vegenere.cs:131 | proof helper: 0 is the identity of XOR on either side |
| Bytes.XorNatSelf | Vegenere.cs:131 | proof helper: a number XORed with itself is 0 |
| Bytes.XorNatBound | Vegenere.cs:131 | XOR of two n-bit numbers fits in n bits, so the cast back to byte loses nothing |
| Bytes.XorNatStep | Vegenere.cs:84 | the low bit of an XOR is the parity of the sum of the operands, and its remaining bits are the XOR of their remaining bits |
| Bytes.XorNatInvolutive | Vegenere.cs:131 | XOR with the same value twice gives back the original number |
| Bytes.XorInvolutive | Vegenere.cs:131 | decrypting an encrypted byte with the same key byte gives back the byte |
| Bytes.ToLowerAscii | Vegenere.cs:100-101 | 'A'..'Z' map to 'a'..'z', every other byte is unchanged, printable stays printable, and no result is upper-case |
| Bytes.ToLowerFoldsCase | Vegenere.cs:99-100 | a lower-case letter and its upper-case form land in the same bucket |
| KeyRecovery.Accepted | Vegenere.cs:85 | the candidate filter: every class byte decrypts to a printable byte (32..127); an empty class accepts every candidate |
| KeyRecovery.IsPrintableUnder | Vegenere.cs:79-91 | the candidate is kept exactly when every byte of the residue class decrypts to 32..127 |
| KeyRecovery.ObservedFrequencies | Vegenere.cs:95-104 | the observed table is the histogram of the decrypted, lower-cased class, each byte weighing 1 / divisor |
| KeyRecovery.ReciprocalDivisor | Vegenere.cs:68 | the divisor N / keyLen is positive, and 1 / divisor is keyLen / N |
| KeyRecovery.CandidateScore | Vegenere.cs:80-113 | the sum is the dot product of the observed table with the English table |
| KeyRecovery.Dot | Vegenere.cs:106-113 | the sum of the element-wise products of the observed and English tables is non-negative when both tables are |
| KeyRecovery.Score | Vegenere.cs:95-113 | a candidate's score is the weight times the sum of the English frequencies of its decrypted, lower-cased bytes |
| KeyRecovery.Products | Vegenere.cs:106-110 | the `result` table has one product per bucket |
| KeyRecovery.FoldedAppend | Vegenere.cs:98-101 | one more class byte adds its decrypted, lower-cased value at the end |
| KeyRecovery.ObservedAppendAt | Vegenere.cs:103 | proof helper: bucket v after counting one more byte gains the weight exactly when v is that byte |
| KeyRecovery.ObservedAppend | Vegenere.cs:103 | one more byte adds the weight to exactly its bucket |
| KeyRecovery.DotAppend | Vegenere.cs:103-113 | one more byte adds the weight times its letter frequency to the score |
| KeyRecovery.DotBySymbols | Vegenere.cs:103-113 | the score equals the weight times the sum of the letter frequencies of the decrypted bytes, one term per byte |
| KeyRecovery.ScoreNonNegative | Vegenere.cs:113 | with non-negative frequencies no candidate scores below 0 |
| KeyRecovery.ChosenKeyByteUnique | Vegenere.cs:114-118 | the first strict maximum is unique, so the key byte is determined by the class |
| KeyRecovery.BestKeyByte | Vegenere.cs:74-124 | the key byte is the first strict maximum of the scores of the accepted candidates, or 0 when none is accepted with a positive score |
| KeyRecovery.RecoverKey | Vegenere.cs:69-125 | the key has keyLen bytes, and byte i is the choice for residue class i |
| KeyRecovery.Folded | Vegenere.cs:98-101 | the folded class is as long as the class |
| KeyRecovery.Weight | Vegenere.cs:103 | the weight of a byte is never negative |
| KeyRecovery.Observed | Vegenere.cs:80 | the observed table has 256 buckets |
| KeyRecovery.FrequenciesOf | Vegenere.cs:109 | one frequency term per decrypted byte |
| Decode.XorDecode | Vegenere.cs:128-133 | the decoded array is the repeating-key XOR of the input with the key |
| Decode.RepeatingXor | Vegenere.cs:131 | decoding keeps the length |
| Decode.RepeatingXorInvolutive | Vegenere.cs:128-133 | decoding is its own inverse: applying it twice with the same key gives back the ciphertext |
| Decode.ClassResidue | Vegenere.cs:131 | proof helper: position i + m·keyLen uses key byte i when decoding |
| Decode.ClassPosition | Vegenere.cs:82 | element m of residue class i is at position i + m·keyLen, which is below N and is decoded with key byte i |
| Decode.AcceptedClassDecodesPrintable | Vegenere.cs:85 | a key byte accepted for a class decodes every byte of that class to a printable byte |
| Decode.PrintableDecodingAcceptsKey | Vegenere.cs:85 | if the whole decoding is printable, every key byte passes the filter for its class |
| Decode.DecodedPrintable | Vegenere.cs:79-133 | every key byte passes the printability filter for its class exactly when the decoded text is printable throughout |
| Vegenere.Vegenere.ComputeKey | Vegenere.cs:62-140 | with two or more input bytes the key length is the estimate in 1..13, each key byte is the per-class choice against the English table with weight keyLen / N, `xored` is the input decoded with the key, and the decoded text is printable exactly when every key byte was accepted |

## Left out

- Console output is not modelled: `Debug`, `Console.WriteLine`, the `Stopwatch` timing and the final `Encoding.ASCII.GetString` only print. `ComputeKey` returns the key and the decoded bytes instead.
- The NUnit `[TestFixture]` and `[Test]` attributes are not modelled. They only register the class with a test runner.
- Vegenere.Vegenere.constructor: takes the hex text as a parameter instead of reading the embedded `Input` constant. The constant is kept as `Vegenere.Input` with its length, but the constructor is not tied to it: no lemma states which bytes it parses to. The constructor requires every digit to be hex; `byte.Parse` would throw otherwise.
- Vegenere.Vegenere.constructor: `byte.Parse` with `NumberStyles.HexNumber` also accepts surrounding white space. Parsing is modelled on hex digits only.
- Vegenere.Vegenere.ComputeKeyLength: scores are exact reals, not `double`. Ties or orderings that only rounding would change are not captured.
- KeyRecovery.BestKeyByte: scores and weights are exact reals, not `decimal`. The 28-digit rounding of `1m / divisor` and of the products is not captured.
- Vegenere.Vegenere.ComputeKeyLength: a length with an empty coset makes `b / (double) counted` NaN. The model leaves that length unselected, which matches `NaN > max` being false. It does not represent the NaN.
- Bytes.ToLowerAscii: `char.ToLower` follows the current culture. The model applies the invariant ASCII mapping. Under a Turkish culture 'I' would become U+0131, and the `(byte)` cast would truncate that to 0x31.
- Vegenere.Vegenere.ComputeKey: requires at least two input bytes. Below that the source divides by zero at line 68 and throws, and that exception is not modelled.
- Frequencies.EnglishLetterFrequencies: fills the 26 letter entries with one loop over the percentage list, not 26 separate stores. The resulting array is the same.
- The `count` variable in the tabulation loop is never read, so it is not modelled.
- Whether the recovered key is the true key is a statistical question and is not stated. What is proved is that the key is the one the scoring rules select.
- Applying the key-length and key-recovery steps to the embedded ciphertext to obtain the actual key and plaintext is not modelled.
