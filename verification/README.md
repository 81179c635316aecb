# NIST SP 800-22 randomness suite in Dafny

This project models the Java port of the NIST SP 800-22 statistical test
suite (package `org.jiumao.nist`) and proves properties of the model.

What is modelled:

- **Crypto random streams** (`CryptoRandomStream`). These are bit streams held
  in a byte array, possibly as a view into another stream's array. The model
  covers:
  - the bit and byte accessors, with Java's truncating `/` and `%` on
    negative positions;
  - the forward and reverse bit cursors;
  - `Reduce`/`Restore` of the bit length, `Equals`, `Copy` and `SetBitPosition`;
  - the three concrete classes: `ByteCryptoRandomStream` with its sub-stream
    views, `DefaultCryptoRandomStream` with its hexadecimal text form, and
    `StringCryptoRandomStream` with the `ofBinaryString`/`ofHexString`
    constructors.

  The byte arrays live in an explicit heap (`seq<seq<bv8>>`), and a stream
  holds a reference into it. That makes the aliasing between a view and its
  parent exact.
- **BaseRandom**: the state every test shares (alpha, p-value, verdict, error
  and block length) and its life cycle of construction, finalize and
  Initialize.
- **MathematicalFunctions**: the dispatch, flag and range logic of `LGamma`,
  `IGamma`, `IGammaC`, `ErF`, `ErFc`, `Normal`, `PolEvl`, `P1Evl`, `Pr` and
  their helpers. The series, continued fractions and other numeric kernels
  are function parameters (`MathFunctions.Kernels`).
- **The statistical tests**: Frequency, BlockFrequency, Runs,
  LongestRunOfOnes, CumulativeSumForward/Reverse, Rank,
  DiscreteFourierTransform, NonOverlappingTemplateMatchings,
  OverlappingTemplateMatchings, Universal, LempelZivCompression,
  LinearComplexity, Serial, ApproximateEntropy and RandomExcursions. For each
  test the model gives:
  - its integer skeleton: counts, walks, window tallies, GF(2) elimination,
    Berlekamp-Massey and the factor table of the real FFT;
  - its minimum-length, NaN and range checks;
  - its verdict and error code.

  A double is an `Ieee.Double`: a real number, plus or minus infinity, or NaN.
  Comparisons with NaN are false, as in Java.
- **RandomTestSuite**: the slot registry of tests indexed by kind, adding and
  removing tests, the short-circuit `IsRandom`, the full `TestRandom` with its
  error merge, and the minimum-length queries.

Java exceptions the code can raise are modelled as error results
(`JavaLang.Err(...)`). Examples are ArrayIndexOutOfBounds,
NegativeArraySize and Arithmetic. Integers are unbounded unless the Java
arithmetic matters, as with integer division, remainder, shifts and byte
masking.

## Model

| member | source | states |
|---|---|---|
| Bytes.ByteBit | src/main/java/org/jiumao/nist/CryptoRandomStream/BaseCryptoRandomStream.java:89-95 | bit k of a byte for k in 0..7; for the negative k that a negative position's remainder produces, the shift is masked and sign-extended, so the byte's top bit is read |
| Bytes.SetByteBitReadsBack | src/main/java/org/jiumao/nist/CryptoRandomStream/BaseCryptoRandomStream.java:69-95 | after SetByteBitPosition(b, k, v) with v a bit, GetByteBitPosition(_, k) reads v |
| Bytes.SetByteBitKeepsOthers | src/main/java/org/jiumao/nist/CryptoRandomStream/BaseCryptoRandomStream.java:69-95 | SetByteBitPosition(b, k, v) leaves every other bit j != k of the byte as it was |
| Bytes.SetByteBitIgnores | src/main/java/org/jiumao/nist/CryptoRandomStream/BaseCryptoRandomStream.java:69-80 | a value that is neither 0 nor 1 matches no switch case, and a negative k moves the mask out of the byte: either way the byte comes back unchanged |
| CryptoStreams.TypeOf | src/main/java/org/jiumao/nist/CryptoRandomStream/ByteCryptoRandomStream.java:47 | GetCryptoRandomStreamType reports StringOfStream exactly for the String class; the Byte and Default classes both report DefaultStream |
| CryptoStreams.Empty | src/main/java/org/jiumao/nist/CryptoRandomStream/BaseCryptoRandomStream.java:101-107 | the default constructor: no array, no buffer, lengths, cursor and offset 0, memory not owned |
| CryptoStreams.GetBit | src/main/java/org/jiumao/nist/CryptoRandomStream/BaseCryptoRandomStream.java:399-406 | GetBitPosition(p) succeeds exactly when a buffer exists and p / 8 (truncated toward zero) is below its limit; a missing buffer throws NullPointerException, any other failure IndexOutOfBoundsException |
| CryptoStreams.GetBitReadsWindow | src/main/java/org/jiumao/nist/CryptoRandomStream/BaseCryptoRandomStream.java:399-406 | the bit read at p >= 0 is bit p % 8 of byte p / 8 of the buffer; positions -7..-1 read the top bit of byte 0 |
| CryptoStreams.GetBitReadsArray | src/main/java/org/jiumao/nist/CryptoRandomStream/BaseCryptoRandomStream.java:399-406 | at a position p >= 0 the bit comes from the backing array's byte offset + p / 8 |
| CryptoStreams.SetBit | src/main/java/org/jiumao/nist/CryptoRandomStream/BaseCryptoRandomStream.java:338-345 | SetBitPosition(p, v) succeeds under the same condition as GetBitPosition(p), with the same exceptions, and changes no array's size |
| CryptoStreams.SetBitWritesArray | src/main/java/org/jiumao/nist/CryptoRandomStream/BaseCryptoRandomStream.java:338-345 | at p >= 0 exactly one byte of the backing array, offset + p / 8, is rewritten |
| CryptoStreams.SetThenGet | src/main/java/org/jiumao/nist/CryptoRandomStream/BaseCryptoRandomStream.java:338-345 | after SetBitPosition(p, v) with v a bit, GetBitPosition(p) reads v and every other position q >= 0 reads what it read before |
| CryptoStreams.SetNonBitIsNoOp | src/main/java/org/jiumao/nist/CryptoRandomStream/BaseCryptoRandomStream.java:69-80 | SetBitPosition with a value other than 0 and 1 leaves every array unchanged |
| CryptoStreams.SetPosition | src/main/java/org/jiumao/nist/CryptoRandomStream/BaseCryptoRandomStream.java:120-123 | SetBitPosition(p) moves the cursor to p and changes nothing else |
| CryptoStreams.GetBitForward | src/main/java/org/jiumao/nist/CryptoRandomStream/BaseCryptoRandomStream.java:257-263 | GetBitForward reads the bit GetBitPosition reads at the cursor, fails exactly when that read fails, and advances the cursor by one |
| CryptoStreams.GetBitReverse | src/main/java/org/jiumao/nist/CryptoRandomStream/BaseCryptoRandomStream.java:270-276 | GetBitReverse reads at the cursor the same way and moves the cursor back by one |
| CryptoStreams.SetBitForward | src/main/java/org/jiumao/nist/CryptoRandomStream/BaseCryptoRandomStream.java:235-239 | SetBitForward writes as SetBitPosition at the cursor and then advances it |
| CryptoStreams.SetBitReverse | src/main/java/org/jiumao/nist/CryptoRandomStream/BaseCryptoRandomStream.java:246-250 | SetBitReverse writes as SetBitPosition at the cursor and then moves it back |
| CryptoStreams.ForwardReadsBits | src/main/java/org/jiumao/nist/CryptoRandomStream/BaseCryptoRandomStream.java:257-263 | m successive GetBitForward calls from cursor q return bits q .. q+m-1 of the stream in order and leave the cursor at q + m |
| CryptoStreams.ReverseReadsBits | src/main/java/org/jiumao/nist/CryptoRandomStream/BaseCryptoRandomStream.java:270-276 | m successive GetBitReverse calls from cursor q return bits q, q-1, .., q-m+1 and leave the cursor at q - m |
| CryptoStreams.GetBitLength | src/main/java/org/jiumao/nist/CryptoRandomStream/BaseCryptoRandomStream.java:140-147 | the reduced length when one is set (non-zero), the true bit length otherwise |
| CryptoStreams.GetLength | src/main/java/org/jiumao/nist/CryptoRandomStream/BaseCryptoRandomStream.java:154-189 | GetUCLength / GetUSLength / GetULLength: the number of whole 8-, 16- or 32-bit units in GetBitLength, truncated toward zero, non-negative for a non-negative length |
| CryptoStreams.ReduceBitLength | src/main/java/org/jiumao/nist/CryptoRandomStream/BaseCryptoRandomStream.java:524-532 | ReduceBitLength(v) sets the reduced length to GetBitLength - v and touches no other field |
| CryptoStreams.ReduceLength | src/main/java/org/jiumao/nist/CryptoRandomStream/BaseCryptoRandomStream.java:543-589 | ReduceUC/US/ULLength(v) subtract v times 8, 16 or 64 bits from GetBitLength and touch no other field |
| CryptoStreams.RestoreLength | src/main/java/org/jiumao/nist/CryptoRandomStream/BaseCryptoRandomStream.java:607-610 | after RestoreLength the stream is not reduced and GetBitLength is the true length; no other field changes |
| CryptoStreams.ReductionsAccumulate | src/main/java/org/jiumao/nist/CryptoRandomStream/BaseCryptoRandomStream.java:524-532 | two reductions subtract both amounts, except that a first reduction landing exactly on 0 reads as "not reduced" and the second starts again from the true length |
| CryptoStreams.ReductionToZeroIsFullLength | src/main/java/org/jiumao/nist/CryptoRandomStream/BaseCryptoRandomStream.java:524-532 | reducing a stream by its whole length leaves it unreduced, reading its full length |
| CryptoStreams.ReduceThenRestore | src/main/java/org/jiumao/nist/CryptoRandomStream/BaseCryptoRandomStream.java:524-610 | a reduction followed by RestoreLength gives the same stream as RestoreLength alone |
| CryptoStreams.ULReductionRemovesTwoInts | src/main/java/org/jiumao/nist/CryptoRandomStream/BaseCryptoRandomStream.java:581-589 | ReduceULLength(1) scales by 64 bits while GetULLength divides by 32, so it removes two ints from GetULLength on an unreduced stream of at least three ints |
| CryptoStreams.FillUC | src/main/java/org/jiumao/nist/CryptoRandomStream/BaseCryptoRandomStream.java:301-306 | FillUC(v) sets every byte of the window to v and changes nothing outside it; without a buffer it throws NullPointerException |
| CryptoStreams.FillBit | src/main/java/org/jiumao/nist/CryptoRandomStream/BaseCryptoRandomStream.java:283-294 | after FillBit(bit) every bit position of the window reads 0 when bit is 0 and 1 for any other value |
| CryptoStreams.Compared | src/main/java/org/jiumao/nist/CryptoRandomStream/BaseCryptoRandomStream.java:633-643 | the bytes Equals compares: for a reduced stream the first GetUCLength bytes (IllegalArgumentException when that exceeds the capacity), otherwise the window |
| CryptoStreams.Equals | src/main/java/org/jiumao/nist/CryptoRandomStream/BaseCryptoRandomStream.java:618-654 | Equals is false for null or a different GetBitLength; for equal bit lengths it throws exactly when either side's compared bytes cannot be taken, and otherwise it is true exactly when the compared bytes agree |
| CryptoStreams.BufferAfterEquals | src/main/java/org/jiumao/nist/CryptoRandomStream/BaseCryptoRandomStream.java:634-650 | after Equals the limits are put back, except that a reduced stream compared with itself keeps its limit narrowed to GetUCLength, because the second save reads the already narrowed limit; the buffer then shows exactly the bytes that were compared |
| CryptoStreams.SelfEqualsNarrows | src/main/java/org/jiumao/nist/CryptoRandomStream/BaseCryptoRandomStream.java:634-650 | a reduced stream whose GetUCLength is below its limit equals itself but comes out of the call with the shorter limit, while a comparison with another stream leaves its buffer alone |
| CryptoStreams.EqualsSymmetric | src/main/java/org/jiumao/nist/CryptoRandomStream/BaseCryptoRandomStream.java:618-654 | a.Equals(b) and b.Equals(a) give the same answer |
| CryptoStreams.EqualsReflexive | src/main/java/org/jiumao/nist/CryptoRandomStream/BaseCryptoRandomStream.java:618-654 | a stream with a buffer equals itself |
| CryptoStreams.Copy | src/main/java/org/jiumao/nist/CryptoRandomStream/BaseCryptoRandomStream.java:663-677 | Copy(null) throws NullPointerException; streams of different GetUCLength throw OutOfMemoryError; a copy changes no array's size |
| CryptoStreams.CopySemantics | src/main/java/org/jiumao/nist/CryptoRandomStream/BaseCryptoRandomStream.java:663-677 | Copy succeeds exactly when the source window fits the target's (or is empty); between separate memory it then copies every source byte into the target and touches nothing else |
| CryptoStreams.CopyFromOverruns | src/main/java/org/jiumao/nist/CryptoRandomStream/BaseCryptoRandomStream.java:669-671 | when the source window is longer than the target's, the copy loop throws IndexOutOfBoundsException at the target's limit |
| ByteStreams.ByteLengthFor | src/main/java/org/jiumao/nist/CryptoRandomStream/ByteCryptoRandomStream.java:87-92 | the byte count for n bits: n / 8, plus one when n % 8 != 0, both truncated toward zero |
| ByteStreams.NewStream | src/main/java/org/jiumao/nist/CryptoRandomStream/ByteCryptoRandomStream.java:81-107 | the bit-length constructor owns a fresh zeroed array of ceil(n / 8) bytes holding n bits; a negative size throws NegativeArraySizeException |
| ByteStreams.NewBorrowing | src/main/java/org/jiumao/nist/CryptoRandomStream/ByteCryptoRandomStream.java:115-134 | the borrowing constructor wraps the caller's array without copying or owning it; a null array gives the empty stream; a length past the array throws IndexOutOfBoundsException |
| ByteStreams.SetAllocated | src/main/java/org/jiumao/nist/CryptoRandomStream/ByteCryptoRandomStream.java:158-236 | SetCryptoRandomStreamBit/UC/US/UL(n) allocate only for a stream without an array and leave the reduced length alone |
| ByteStreams.SetBorrowed | src/main/java/org/jiumao/nist/CryptoRandomStream/ByteCryptoRandomStream.java:192-352 | SetCryptoRandomStreamBit/UC/US/UL(array, n) ignore a null array and otherwise borrow the array, replacing what the stream held |
| ByteStreams.Finalize | src/main/java/org/jiumao/nist/CryptoRandomStream/ByteCryptoRandomStream.java:139-150 | finalize zeroes owned bytes, leaves borrowed bytes alone, and clears references, lengths and cursor but not the reduced length |
| ByteStreams.CastTarget | src/main/java/org/jiumao/nist/CryptoRandomStream/ByteCryptoRandomStream.java:378-382 | sub-stream targets are cast to ByteCryptoRandomStream by the Byte and String classes and to their own class by the Default class |
| ByteStreams.SubView | src/main/java/org/jiumao/nist/CryptoRandomStream/ByteCryptoRandomStream.java:363-576 | GetUC/US/ULSubRandomStream throw IndexOutOfBoundsException for a position at or past the last whole unit or a range past the end, and never succeed for a target of the wrong class; otherwise the target shares the parent's array from unit pos on |
| ByteStreams.SubViewSucceeds | src/main/java/org/jiumao/nist/CryptoRandomStream/ByteCryptoRandomStream.java:363-388 | inside the parent's bits, a position-only view into a target of the right class succeeds, and its byte k is the parent's byte pos * unit + k |
| ByteStreams.RangeViewSucceeds | src/main/java/org/jiumao/nist/CryptoRandomStream/ByteCryptoRandomStream.java:468-496 | a (pos, length) view whose range lies inside the parent succeeds and shares the parent's bytes the same way |
| ByteStreams.SubViewNeedsCastClass | src/main/java/org/jiumao/nist/CryptoRandomStream/ByteCryptoRandomStream.java:378 | a target of the wrong class is refused with ClassCastException |
| ByteStreams.ViewSharesBits | src/main/java/org/jiumao/nist/CryptoRandomStream/ByteCryptoRandomStream.java:378-380 | a bit written through a view reads back from the parent at the position shifted by the view's start |
| ByteStreams.NegativePositionEscapesView | src/main/java/org/jiumao/nist/CryptoRandomStream/ByteCryptoRandomStream.java:367-380 | the range check only bounds the position from above, so a negative position on a view reaches bytes in front of it |
| ByteStreams.SubViewChecked | src/main/java/org/jiumao/nist/CryptoRandomStream/ByteCryptoRandomStream.java:363-388 | the same views, also refusing a negative position |
| ByteStreams.CheckedViewStaysInside | src/main/java/org/jiumao/nist/CryptoRandomStream/ByteCryptoRandomStream.java:363-576 | with the position checked, every view of a consistent stream stays inside that stream's own bytes |
| HexText.HexNibble | src/main/java/org/jiumao/nist/CryptoRandomStream/DefaultCryptoRandomStream.java:382-432 | each digit case of the switch: 0-9, a-f and A-F are digits (letters of either case give the same nibble); every other character falls to the default branch that throws |
| HexText.HexDecode | src/main/java/org/jiumao/nist/CryptoRandomStream/DefaultCryptoRandomStream.java:360-440 | the hex parse succeeds exactly on an even-length text of hex digits, giving half as many bytes; otherwise DataFormatException |
| HexText.DecodeEncoded | src/main/java/org/jiumao/nist/CryptoRandomStream/DefaultCryptoRandomStream.java:382-432 | parsing the lower-case hex text of some bytes gives those bytes back |
| HexText.EncodeDecoded | src/main/java/org/jiumao/nist/CryptoRandomStream/DefaultCryptoRandomStream.java:382-432 | re-encoding parsed text gives the text back with its letters in lower case: the parse loses nothing but the digits' case |
| DefaultStreams.SetHexString | src/main/java/org/jiumao/nist/CryptoRandomStream/DefaultCryptoRandomStream.java:360-440 | SetCryptoRandomStreamHexString: a null string throws NullPointerException, an odd length or a non-digit throws DataFormatException; otherwise the stream owns a fresh array of the decoded bytes, 8 bits per byte |
| DefaultStreams.HexBits | src/main/java/org/jiumao/nist/CryptoRandomStream/DefaultCryptoRandomStream.java:380-434 | after the hex setter, bit p is bit p % 8 of the byte spelled by digit pair p / 8: the first digit holds bits 7..4 and the second bits 3..0 |
| DefaultStreams.HexSetterRoundTrip | src/main/java/org/jiumao/nist/CryptoRandomStream/DefaultCryptoRandomStream.java:360-440 | a stream set from the hex text of some bytes holds exactly those bytes |
| DefaultStreams.DefaultViewsAreDefault | src/main/java/org/jiumao/nist/CryptoRandomStream/DefaultCryptoRandomStream.java:452-475 | the Default class casts sub-stream targets to its own class, so views of it report DefaultStream |
| StringStreams.Trim | src/main/java/org/jiumao/nist/CryptoRandomStream/StringCryptoRandomStream.java:53 | String.trim: the text without its leading and trailing characters at or below U+0020 |
| StringStreams.TrimIdempotent | src/main/java/org/jiumao/nist/CryptoRandomStream/StringCryptoRandomStream.java:53 | trimming a trimmed text changes nothing |
| StringStreams.OfBinaryStringAsWritten | src/main/java/org/jiumao/nist/CryptoRandomStream/StringCryptoRandomStream.java:50-68 | ofBinaryString as written: one byte per character of the trimmed text, holding the character's low code byte, and one bit of length per character |
| StringStreams.BinaryStringAsWrittenMisreads | src/main/java/org/jiumao/nist/CryptoRandomStream/StringCryptoRandomStream.java:56-63 | the text "11" gives a two-bit stream whose second bit reads 0 |
| StringStreams.OfBinaryString | src/main/java/org/jiumao/nist/CryptoRandomStream/StringCryptoRandomStream.java:50-68 | the binary-string constructor as the text format means it: only '0' and '1' after trimming, and bit p is 1 exactly when character p is '1' |
| StringStreams.BinaryStringRoundTrip | src/main/java/org/jiumao/nist/CryptoRandomStream/StringCryptoRandomStream.java:50-68 | reading the constructed stream forward gives the text back, '1' as 1 and '0' as 0 |
| StringStreams.OfHexString | src/main/java/org/jiumao/nist/CryptoRandomStream/StringCryptoRandomStream.java:76-160 | ofHexString: a new String-class stream with the same parse and errors as the Default class's hex setter |
| StringStreams.StringViewsAreByte | src/main/java/org/jiumao/nist/CryptoRandomStream/StringCryptoRandomStream.java:390-413 | sub-stream views of a String-class stream are Byte-class streams and no longer report StringOfStream |
| MathFunctions.LGamma | src/main/java/org/jiumao/nist/Base/MathematicalFunctions.java:113-200 | LGamma reports Overflow exactly when x > MAXLGM, when x < -34 and -x is whole or above MAXLGM, or when x is a whole number in [-34, 0], where the loop up to 2 meets u == 0; it returns +MAXNUM with Overflow for x > MAXLGM, for a whole x below -34 and at those poles; it never reports Underflow, and otherwise hands back the series value with the flags clear |
| MathFunctions.LGammaAtPoles | src/main/java/org/jiumao/nist/Base/MathematicalFunctions.java:158-188 | LGamma(0), LGamma(-1) and LGamma(-34) return MAXNUM with error and Overflow set, while LGamma(1) and LGamma(2) return the series value with the flags clear |
| MathFunctions.GammaCore | src/main/java/org/jiumao/nist/Base/MathematicalFunctions.java:222-233 | the shared tail of IGamma and IGammaC: an underflowing prefactor (below -MAXLOG) gives 0 with Underflow; otherwise the numerical core's value stands and the only possible flag is LGamma's Overflow |
| MathFunctions.IGamma | src/main/java/org/jiumao/nist/Base/MathematicalFunctions.java:210-235 | IGamma is 0 with no flag for x <= 0 or a <= 0, is 1 - IGammaC's core when x > 1 and x > a, and runs its series otherwise |
| MathFunctions.IGammaC | src/main/java/org/jiumao/nist/Base/MathematicalFunctions.java:246-297 | IGammaC is 1 with no flag for x <= 0 or a <= 0, is 1 - IGamma's core when x < 1 or x < a, and runs its continued fraction otherwise |
| MathFunctions.IGammaComplement | src/main/java/org/jiumao/nist/Base/MathematicalFunctions.java:210-297 | IGamma(a, x) + IGammaC(a, x) = 1 wherever one delegates to the other or the domain guard answers both, given a finite core value |
| MathFunctions.NoDelegationOnlyOnBoundary | src/main/java/org/jiumao/nist/Base/MathematicalFunctions.java:210-297 | inside the domain neither function delegates only on the boundary x = 1 (a <= 1) or x = a (a >= 1) |
| MathFunctions.ErF | src/main/java/org/jiumao/nist/Base/MathematicalFunctions.java:358-375 | ErF runs its series for abs(x) <= 2.2 and is 1 - ErFc(x) above it, where ErFc of a negative argument is 2 - ErFc(-x) |
| MathFunctions.ErFc | src/main/java/org/jiumao/nist/Base/MathematicalFunctions.java:384-406 | ErFc is 1 - ErF's series for abs(x) < 2.2, its own continued fraction for x >= 2.2, 2 - ErFc(-x) for x <= -2.2, and NaN on a non-finite argument |
| MathFunctions.ErfComplement | src/main/java/org/jiumao/nist/Base/MathematicalFunctions.java:358-406 | ErF(x) + ErFc(x) = 1 for every finite x other than the switch points +-2.2, given a finite core value |
| MathFunctions.Normal | src/main/java/org/jiumao/nist/Base/MathematicalFunctions.java:415-428 | the standard normal distribution function through ErF of x / SQRT2, split on the sign of x |
| MathFunctions.NormalSymmetry | src/main/java/org/jiumao/nist/Base/MathematicalFunctions.java:415-428 | Normal(x) + Normal(-x) = 1 for every non-zero finite x, whatever value erf has |
| MathFunctions.PolEvl | src/main/java/org/jiumao/nist/Base/MathematicalFunctions.java:308-322 | Horner's loop gives coef[0]*x^N + .. + coef[N]; it needs N >= 1 and N + 1 coefficients and runs off the array otherwise |
| MathFunctions.P1Evl | src/main/java/org/jiumao/nist/Base/MathematicalFunctions.java:335-349 | the same polynomial with an implicit leading coefficient 1; it needs N >= 2 and N coefficients |
| MathFunctions.Max | src/main/java/org/jiumao/nist/Base/MathematicalFunctions.java:463-466 | max is an upper bound equal to one argument; a NaN second argument is ignored and a NaN first one returned |
| MathFunctions.Min | src/main/java/org/jiumao/nist/Base/MathematicalFunctions.java:476-479 | min is a lower bound equal to one argument, with the same NaN behaviour |
| MathFunctions.IsNonPositive | src/main/java/org/jiumao/nist/Base/MathematicalFunctions.java:488-491 | isNonPositive returns 1.0 exactly for x <= 0 and 0.0 otherwise |
| MathFunctions.OutOfRangeCheck | src/main/java/org/jiumao/nist/Base/MathematicalFunctions.java:512-528 | isNegative(p) or isGreaterThanOne(p) rejects exactly the non-NaN values outside [0, 1]; a NaN passes |
| MathFunctions.LogGammaOf | src/main/java/org/jiumao/nist/Base/MathematicalFunctions.java:113-200 | lgam at a whole number n is MAXNUM for every n <= 0 (a pole, or the reflection of one) and the kernel's value for 0 < n <= MAXLGM |
| MathFunctions.LogGammaOfAgrees | src/main/java/org/jiumao/nist/Base/MathematicalFunctions.java:113-200 | the whole-number form used by Pr's summands equals LGamma's value at every whole n |
| MathFunctions.Pr | src/main/java/org/jiumao/nist/Base/MathematicalFunctions.java:555-569 | the loop computes PrOf: e^-eta for u = 0, 0 for a negative u, and for u > 0 the sum of the u kernel-valued summands in the loop's order |
| MathFunctions.PrOf | src/main/java/org/jiumao/nist/Base/MathematicalFunctions.java:555-569 | Pr(u, eta) is e^-eta for u = 0 and 0 for a negative u |
| MathFunctions.PrNonNegative | src/main/java/org/jiumao/nist/Base/MathematicalFunctions.java:555-569 | whenever exp never returns a negative value or NaN, Pr(u, eta) is non-negative for every u, the u > 0 sums included |
| BaseRandom.New | src/main/java/org/jiumao/nist/Base/BaseRandom.java:111-153 | both constructors reset the results with alpha 0; a null argument makes the test own a new MathematicalFunctions, anything else is borrowed |
| BaseRandom.AlphaStartsAtZero | src/main/java/org/jiumao/nist/Base/BaseRandom.java:116 | a new test does not start from ALPHA: with alpha 0 any p-value passes |
| BaseRandom.Finalize | src/main/java/org/jiumao/nist/Base/BaseRandom.java:159-169 | finalize clears alpha, p-value, verdict and error and drops the MathematicalFunctions reference; the block length survives |
| BaseRandom.Initialize | src/main/java/org/jiumao/nist/Base/BaseRandom.java:227-232 | Initialize resets p-value, verdict and error and nothing else |
| BaseRandom.InitializeIdempotent | src/main/java/org/jiumao/nist/Base/BaseRandom.java:227-232 | a second Initialize changes nothing |
| BaseRandom.AccessorsRoundTrip | src/main/java/org/jiumao/nist/Base/BaseRandom.java:175-278 | setAlpha and SetBlockLength read back through getAlpha and GetBlockLength, the last write wins, and Initialize keeps both |
| BaseRandom.PassesOrdered | src/main/java/org/jiumao/nist/random/Frequency.java:149-154 | the verdict `pValue < alpha ? false : true` passes exactly p >= alpha on non-NaN values |
| BaseRandom.NaNPasses | src/main/java/org/jiumao/nist/random/Frequency.java:149-154 | a NaN p-value passes the verdict |
| BaseRandom.Judge | src/main/java/org/jiumao/nist/random/CumulativeSumForward.java:137-148 | the shared tail of the tests: the p-value is stored, the verdict is p >= alpha, and a p-value outside [0, 1] overturns it with PValueOutOfRange |
| BaseRandom.TooShort | src/main/java/org/jiumao/nist/random/Frequency.java:134-138 | a stream shorter than the minimum sets InsufficientNumberOfBits and a failing verdict and changes nothing else |
| BaseRandom.ForwardWalkReadsStreamBits | src/main/java/org/jiumao/nist/random/CumulativeSumForward.java:117-122 | the tests' GetBitForward walk from position 0 reads GetBitLength bits, the stream's bits in order |
| BaseRandom.ReverseWalkReadsStreamBitsBackwards | src/main/java/org/jiumao/nist/random/CumulativeSumReverse.java:117-122 | the reverse test's GetBitReverse walk from the last bit reads the stream's bits back to front |
| TestSuite.New | src/main/java/org/jiumao/nist/Base/RandomTestSuite.java:121-156 | both constructors start with every slot empty, no test counted, no error, verdict false and NotDefined for the error and non-random tests |
| TestSuite.Finalize | src/main/java/org/jiumao/nist/Base/RandomTestSuite.java:161-179 | finalize empties every slot and puts every result and counter back to its initial value |
| TestSuite.AddTest | src/main/java/org/jiumao/nist/Base/RandomTestSuite.java:188-195 | Add(test) ignores null; otherwise the test takes the slot of the kind it reports, replacing what was there, and the count goes up; a null kind throws NullPointerException and a kind without a slot ArrayIndexOutOfBoundsException |
| TestSuite.AddKind | src/main/java/org/jiumao/nist/Base/RandomTestSuite.java:202-275 | Add(kind) constructs a test only for an empty slot and counts it; an occupied slot is kept; either way the slot is marked self-created; a kind without a slot throws |
| TestSuite.AddNewTest | src/main/java/org/jiumao/nist/Base/RandomTestSuite.java:305-420 | AddFrequencyTest() .. AddDiscreteFourierTransformTest() put a new test in their slot whatever it held and count it |
| TestSuite.AddAll | src/main/java/org/jiumao/nist/Base/RandomTestSuite.java:281-299 | AddAll puts a new self-created test in every slot and sets the count to the number of slots |
| TestSuite.RemoveKind | src/main/java/org/jiumao/nist/Base/RandomTestSuite.java:571-581 | Remove(kind) empties an occupied slot, lowers its flag and decrements the count; an empty slot changes nothing |
| TestSuite.RemoveTest | src/main/java/org/jiumao/nist/Base/RandomTestSuite.java:552-564 | Remove(test) removes only the very object held in its kind's slot; another object of that kind is left; a null test or kind throws |
| TestSuite.RemoveAll | src/main/java/org/jiumao/nist/Base/RandomTestSuite.java:587-600 | RemoveAll empties every slot and zeroes the count, leaving the results alone |
| TestSuite.GetRandomTest | src/main/java/org/jiumao/nist/Base/RandomTestSuite.java:430-433 | GetRandomTest(kind) returns the slot of that kind, which holds a test of that kind or null; a kind without a slot throws |
| TestSuite.Exist | src/main/java/org/jiumao/nist/Base/RandomTestSuite.java:973-976 | Exist(kind) is true exactly when that kind's slot is occupied; a kind without a slot throws |
| TestSuite.CountKept | src/main/java/org/jiumao/nist/Base/RandomTestSuite.java:202-600 | Add(kind), Remove(kind), AddAll and RemoveAll keep the count equal to the number of occupied slots |
| TestSuite.CountDriftsOnOverwrite | src/main/java/org/jiumao/nist/Base/RandomTestSuite.java:188-195 | adding an object, or a new test through AddXxxTest, over an occupied slot still raises the count, so it ends one above the number of registered tests |
| TestSuite.TestRandom | src/main/java/org/jiumao/nist/Base/RandomTestSuite.java:815-835 | TestRandom changes only the verdict, error and error count; the slots and the instantiated count stay |
| TestSuite.TestLoopIsConjunction | src/main/java/org/jiumao/nist/Base/RandomTestSuite.java:815-835 | TestRandom's verdict is the AND of the verdicts of every registered test |
| TestSuite.TestRandomVerdict | src/main/java/org/jiumao/nist/Base/RandomTestSuite.java:815-835 | TestRandom's verdict is the AND of the registered verdicts; its error summarises the previous error and each non-random test's error (none: NoError, one value: that value, two values: MultipleErrors), and each such test adds one to the error count |
| TestSuite.IsRandom | src/main/java/org/jiumao/nist/Base/RandomTestSuite.java:788-805 | IsRandom keeps the slots and the error field; numberOfErrors becomes 1 when a test the loop reaches reports an error and is otherwise unchanged, and errorTest names the last such test or keeps its value |
| TestSuite.ShortLoopErrors | src/main/java/org/jiumao/nist/Base/RandomTestSuite.java:793-802 | over the first i slots, numberOfErrors is set to 1, not incremented, exactly when some test reached up to and including the first failure reports an error; errorTest is the last such kind, and with none both fields keep their values |
| TestSuite.ShortLoopIsConjunction | src/main/java/org/jiumao/nist/Base/RandomTestSuite.java:788-805 | IsRandom's short-circuit loop gives the AND of the registered verdicts |
| TestSuite.ShortLoopStopsAtFirstFailure | src/main/java/org/jiumao/nist/Base/RandomTestSuite.java:788-805 | IsRandom stops at the first failing registered test and names it as the non-random test |
| TestSuite.ShortLoopEndsAtLastRegistered | src/main/java/org/jiumao/nist/Base/RandomTestSuite.java:788-805 | when every test passes, the non-random test names the last registered one |
| TestSuite.ShortLoopOnEmptySlots | src/main/java/org/jiumao/nist/Base/RandomTestSuite.java:788-805 | with no registered test IsRandom only sets the verdict to true |
| TestSuite.SameVerdict | src/main/java/org/jiumao/nist/Base/RandomTestSuite.java:788-835 | IsRandom and TestRandom give the same verdict |
| TestSuite.Initialize | src/main/java/org/jiumao/nist/Base/RandomTestSuite.java:843-855 | Initialize resets the verdict, error, error count and error test, and leaves the slots and the non-random test |
| TestSuite.AsWrittenAlwaysThrows | src/main/java/org/jiumao/nist/Base/RandomTestSuite.java:898-933 | both minimum-length methods reach NumberOfTests, whose ordinal is one past the last slot, and throw ArrayIndexOutOfBoundsException on every suite |
| TestSuite.GetMinimumLength | src/main/java/org/jiumao/nist/Base/RandomTestSuite.java:898-910 | the corrected GetMinimumLength: the largest minimum length among registered tests, or 0 |
| TestSuite.GetMinimumLengthRandomTest | src/main/java/org/jiumao/nist/Base/RandomTestSuite.java:918-933 | the corrected GetMinimumLengthRandomTest: the first kind whose test attains the largest positive minimum, NotDefined when it is 0 |
| FrequencyTest.ObservedSum | src/main/java/org/jiumao/nist/random/Frequency.java:141-145 | the summing loop adds +1 per one and -1 per zero: the sum is the random walk's end point, within plus or minus n and of the parity of n |
| FrequencyTest.IsRandom | src/main/java/org/jiumao/nist/random/Frequency.java:128-158 | a short stream changes only the error and verdict; otherwise the error is cleared, sum is ones minus zeros, sumDiv_n is sum / n, and the verdict is p >= alpha on p = erfc(abs(sum) / sqrt(n) / sqrt 2), with no range check |
| FrequencyTest.SumFacts | src/main/java/org/jiumao/nist/random/Frequency.java:141-155 | the recorded sum is 2 * ones - n; a stream of all ones records n, all zeros -n, and a balanced stream 0 |
| BlockFrequencyTest.New | src/main/java/org/jiumao/nist/random/BlockFrequency.java:67-92 | both constructors set the block length to 128 and clear the results |
| BlockFrequencyTest.IsRandom | src/main/java/org/jiumao/nist/random/BlockFrequency.java:127-170 | a short stream only fails; a block length of 0 ends in the int remainder by zero (ArithmeticException); otherwise floor(n / M) blocks are scored, chi-squared is 4M times the sum of (pi_i - 1/2)^2, the leftover bits are n % M, and a NaN p-value becomes 0 with MathematicianNAN and a failing verdict, else the verdict is p >= alpha |
| BlockFrequencyTest.StatisticFacts | src/main/java/org/jiumao/nist/random/BlockFrequency.java:139-168 | the scored blocks and the discarded bits make up the stream, and chi-squared lies between 0 and M times the number of blocks |
| BlockFrequencyTest.BalancedBlocksScoreZero | src/main/java/org/jiumao/nist/random/BlockFrequency.java:141-151 | blocks that each hold exactly M / 2 ones contribute nothing to chi-squared |
| BlockFrequencyTest.DeviationIsScaledExcess | src/main/java/org/jiumao/nist/random/BlockFrequency.java:147-151 | 4M (ones / M - 1/2)^2 equals (2 ones - M)^2 / M, the integer form the bounds are proved on |
| RunsTest.ObservedRuns | src/main/java/org/jiumao/nist/random/Runs.java:154-163 | the r[] loop marks each position whose bit differs from the next, and the number of runs is their sum plus one |
| RunsTest.NoChangesIffConstant | src/main/java/org/jiumao/nist/random/Runs.java:154-163 | the run count is 1 exactly when the stream is constant |
| RunsTest.AllChangesIffAlternating | src/main/java/org/jiumao/nist/random/Runs.java:154-163 | the run count is n exactly when every bit differs from the next |
| RunsTest.ChangesOfReverse | src/main/java/org/jiumao/nist/random/Runs.java:154-163 | a stream read back to front has the same number of runs |
| RunsTest.ProductZeroIffConstant | src/main/java/org/jiumao/nist/random/Runs.java:153-164 | pi (1 - pi) is zero exactly for a stream of all zeros or all ones |
| RunsTest.IsRandomAsWritten | src/main/java/org/jiumao/nist/random/Runs.java:133-180 | isRandom as written: the runs and pi are recorded, p = erfc(argument) with no prerequisite on pi, the verdict is p >= alpha, and a p-value outside [0, 1] fails with PValueOutOfRange |
| RunsTest.ConstantStreamPassesAsWritten | src/main/java/org/jiumao/nist/random/Runs.java:164-179 | a constant stream has one run and pi (1 - pi) = 0, so the argument is a division by zero, the p-value is NaN, and the stream passes with no error |
| RunsTest.ZerosPassAsWritten | src/main/java/org/jiumao/nist/random/Runs.java:133-180 | the all-zero stream of 100 bits passes as written |
| RunsTest.IsRandom | src/main/java/org/jiumao/nist/random/Runs.java:133-180 | the corrected test: a stream failing the prerequisite of section 2.3.4 of NIST SP 800-22 gets p = 0 and fails; every other stream is judged as written |
| RunsTest.ConstantStreamFails | src/main/java/org/jiumao/nist/random/Runs.java:133-180 | with the prerequisite a constant stream fails |
| RunsTest.PrerequisiteKeepsArgumentFinite | src/main/java/org/jiumao/nist/random/Runs.java:164-166 | past the prerequisite pi (1 - pi) is positive, so the argument is a finite number |
| CumulativeSumsTest.Finalize | src/main/java/org/jiumao/nist/random/CumulativeSumForward.java:83-86 | finalize zeroes cuSum and leaves the base state |
| CumulativeSumsTest.Initialize | src/main/java/org/jiumao/nist/random/CumulativeSumForward.java:156-160 | Initialize zeroes cuSum and resets the base results |
| CumulativeSumsTest.ObservedExcursion | src/main/java/org/jiumao/nist/random/CumulativeSumForward.java:117-124 | the summing loop leaves cuSum at the largest distance from zero the walk reaches, starting from 1 |
| CumulativeSumsTest.ExcursionBoundsPrefixes | src/main/java/org/jiumao/nist/random/CumulativeSumForward.java:120-124 | no partial sum lies further from zero than cuSum |
| CumulativeSumsTest.ExcursionIsReached | src/main/java/org/jiumao/nist/random/CumulativeSumForward.java:120-124 | cuSum is reached by some partial sum, or is the initial 1 |
| CumulativeSumsTest.RangesContainZero | src/main/java/org/jiumao/nist/random/CumulativeSumForward.java:127-134 | with 1 <= z <= n and Java's truncating division, both summation ranges start at or below 0 and end at or above 0 |
| CumulativeSumsTest.IsRandom | src/main/java/org/jiumao/nist/random/CumulativeSumForward.java:108-150 | forward mode walks the bits from the first, reverse mode from the last; z is the largest excursion, between 1 and n; then the range check and the verdict p >= alpha |
| CumulativeSumsTest.ExcursionCoversEndpoint | src/main/java/org/jiumao/nist/random/CumulativeSumReverse.java:108-150 | in either direction z is at least abs(ones - zeros), the walk's end point |
| CumulativeSumsTest.ConstantStreamExcursion | src/main/java/org/jiumao/nist/random/CumulativeSumForward.java:117-124 | a constant stream has the largest possible excursion, n, in either mode |
| LongestRunTest.New | src/main/java/org/jiumao/nist/random/LongestRunOfOnes.java:88-131 | both constructors start with seven zero class counts and cleared counters |
| LongestRunTest.Finalize | src/main/java/org/jiumao/nist/random/LongestRunOfOnes.java:138-148 | finalize clears the counters and drops the count array, leaving the base state |
| LongestRunTest.Initialize | src/main/java/org/jiumao/nist/random/LongestRunOfOnes.java:293-303 | Initialize resets the base results and zeroes the count array, and throws NullPointerException once finalize has dropped it |
| LongestRunTest.SetLongRunCase | src/main/java/org/jiumao/nist/random/LongestRunOfOnes.java:335-338 | SetLongRunCase stores its argument and changes nothing else |
| LongestRunTest.RegimeFor | src/main/java/org/jiumao/nist/random/LongestRunOfOnes.java:188-235 | below 6272 bits K = 3 with blocks of 8 and classes from 1; below 750000 K = 5 with blocks of 128 and classes from 4; from there K = 6 with blocks of 10000 and classes from 10; class thresholds are consecutive and every probability positive |
| LongestRunTest.RegimeProbabilitiesSumToOne | src/main/java/org/jiumao/nist/random/LongestRunOfOnes.java:191-226 | each table's probabilities add up to 1 within 1e-8, the first and last exactly |
| LongestRunTest.ObservedLongestRun | src/main/java/org/jiumao/nist/random/LongestRunOfOnes.java:241-251 | the inner loop over one block ends with the length of its longest run of ones |
| LongestRunTest.LongestRunOccurs | src/main/java/org/jiumao/nist/random/LongestRunOfOnes.java:241-251 | the recorded longest run is a block of ones somewhere in the block |
| LongestRunTest.LongestRunIsMaximal | src/main/java/org/jiumao/nist/random/LongestRunOfOnes.java:241-251 | no longer block of ones exists |
| LongestRunTest.Class | src/main/java/org/jiumao/nist/random/LongestRunOfOnes.java:252-262 | a longest run at or below k[0] falls in class 0, at or above k[K] in class K, and any other in the class whose threshold it equals |
| LongestRunTest.TallyCountsClass | src/main/java/org/jiumao/nist/random/LongestRunOfOnes.java:252-262 | the three updates of the class counts add one to exactly the block's class: they never fire twice for one block |
| LongestRunTest.CountsTotal | src/main/java/org/jiumao/nist/random/LongestRunOfOnes.java:240-263 | every block is counted exactly once: the class counts add up to the number of blocks |
| LongestRunTest.ChiSquaredNonNegative | src/main/java/org/jiumao/nist/random/LongestRunOfOnes.java:264-269 | chi-squared, the sum of (nu_i - N pi_i)^2 / (N pi_i), is non-negative |
| LongestRunTest.Measure | src/main/java/org/jiumao/nist/random/LongestRunOfOnes.java:238-269 | N = floor(n / M) blocks, at least one, the class counts of those blocks, and a non-negative chi-squared |
| LongestRunTest.IsRandom | src/main/java/org/jiumao/nist/random/LongestRunOfOnes.java:173-286 | a short stream only fails; after finalize the final write of the counts throws NullPointerException; otherwise the block count, block length, counts and chi-squared are recorded and the p-value igamc(K / 2, chi^2 / 2) is range-checked and judged |
| LongestRunTest.AssignmentCoversBlocks | src/main/java/org/jiumao/nist/random/LongestRunOfOnes.java:238-284 | the recorded counts cover every block once, and the blocks cover the stream except fewer than M bits |
| RankTest.New | src/main/java/org/jiumao/nist/random/Rank.java:278-313 | both constructors clear every field |
| RankTest.Finalize | src/main/java/org/jiumao/nist/random/Rank.java:320-331 | finalize clears every field of the test, leaving the base state |
| RankTest.Initialize | src/main/java/org/jiumao/nist/random/Rank.java:436-448 | Initialize clears every field and resets the base results |
| RankTest.DefineMatrix | src/main/java/org/jiumao/nist/random/Rank.java:106-113 | entry (i, j) of matrix k is stream bit k * 1024 + 32 i + j |
| RankTest.DefineMatrixIsRowMajor | src/main/java/org/jiumao/nist/random/Rank.java:106-113 | read row by row, matrix k is block k of the stream: each of its 1024 bits lands in exactly one entry |
| RankTest.AddRow | src/main/java/org/jiumao/nist/random/Rank.java:136-153 | adding a pivot row XORs it into the row from the given column on |
| RankTest.EliminateClearsColumn | src/main/java/org/jiumao/nist/random/Rank.java:136-153 | with a 1 on the diagonal, elimination clears column i below (flag 0) or above (flag 1) the pivot and leaves the pivot row and the rows on the other side alone |
| RankTest.SwapRows | src/main/java/org/jiumao/nist/random/Rank.java:165-175 | SwapRows exchanges the two rows and nothing else |
| RankTest.SwapRowsInvolution | src/main/java/org/jiumao/nist/random/Rank.java:165-175 | swapping twice gives the matrix back |
| RankTest.FindUnitElementAndSwap | src/main/java/org/jiumao/nist/random/Rank.java:189-210 | the result is 1 exactly when a row below (flag 0) or above (flag 1) row i has a 1 in column i, and that row is then swapped into place; otherwise the matrix is unchanged |
| RankTest.DetermineRank | src/main/java/org/jiumao/nist/random/Rank.java:222-238 | the rank is m less the number of all-zero rows |
| RankTest.ComputeRank | src/main/java/org/jiumao/nist/random/Rank.java:249-272 | for a matrix with no more rows than columns the rank lies between 0 and the number of rows |
| RankTest.ZeroMatrixHasRankZero | src/main/java/org/jiumao/nist/random/Rank.java:249-272 | a square all-zero matrix has rank 0 |
| RankTest.IdentityHasFullRank | src/main/java/org/jiumao/nist/random/Rank.java:249-272 | the n x n identity has rank n |
| RankTest.CountsDisjoint | src/main/java/org/jiumao/nist/random/Rank.java:394-402 | no matrix is counted both as rank 32 and rank 31, so f32 + f31 <= N |
| RankTest.IsRandom | src/main/java/org/jiumao/nist/random/Rank.java:356-429 | a short stream only fails; otherwise N = floor(n / 1024) >= 38 matrices, the leftover bits n % 1024, the rank-32 and rank-31 tallies and the rest, the expected probabilities, chi-squared, and p = exp(-chi^2 / 2) judged and range-checked |
| RankTest.TalliesPartition | src/main/java/org/jiumao/nist/random/Rank.java:394-402 | the three tallies add up to N, and f32 and f31 count exactly the matrices of that rank |
| UniversalTest.New | src/main/java/org/jiumao/nist/random/Universal.java:110-145 | both constructors build the base state and zero L, Q, K, sigma, phi, sum, the expected value, the variance and bitsDiscarded |
| UniversalTest.Finalize | src/main/java/org/jiumao/nist/random/Universal.java:152-163 | finalize() zeroes the same fields and keeps the base state |
| UniversalTest.Initialize | src/main/java/org/jiumao/nist/random/Universal.java:285-297 | Initialize() resets the base state and zeroes the same fields |
| UniversalTest.BlockLength | src/main/java/org/jiumao/nist/random/Universal.java:201-222 | the length ladder picks L between 6 and 16 such that n reaches the threshold for L and, below 16, stays under the threshold for L + 1 |
| UniversalTest.BlockLengthMonotone | src/main/java/org/jiumao/nist/random/Universal.java:201-222 | a longer stream never gets a shorter block length |
| UniversalTest.ThresholdIsBlocksTimesL | src/main/java/org/jiumao/nist/random/Universal.java:201-222 | every threshold of the ladder equals 1010 * 2^L * L: the bits of 10 * 2^L initialisation blocks plus 1000 * 2^L test blocks |
| UniversalTest.TestBlocksSuffice | src/main/java/org/jiumao/nist/random/Universal.java:224-225 | for every stream past the minimum length, K = n / L - Q is at least 1000 * 2^L |
| UniversalTest.DiscardedIsRemainder | src/main/java/org/jiumao/nist/random/Universal.java:233 | bitsDiscarded = n - (Q + K) L is exactly n mod L |
| UniversalTest.DecRepIsWord | src/main/java/org/jiumao/nist/random/Universal.java:249-251 | after j rounds of the inner loop decRep is the big-endian word of the first j bits of the block, shifted left by L - j |
| UniversalTest.Pattern | src/main/java/org/jiumao/nist/random/Universal.java:249-251 | the decRep of a block is below 2^L, so it always indexes T |
| UniversalTest.SamePattern | src/main/java/org/jiumao/nist/random/Universal.java:249-253 | two blocks get the same decRep exactly when they hold the same bits |
| UniversalTest.TableHoldsLastOccurrence | src/main/java/org/jiumao/nist/random/Universal.java:246-263 | after block i, T[v] is the last block up to i whose pattern is v, or 0 if no block had it |
| UniversalTest.DistanceToPrevious | src/main/java/org/jiumao/nist/random/Universal.java:255-263 | each distance i - T[decRep] summed in the test loop is positive, at most i, and leads back to the previous block with the same pattern (to 0 when there is none) |
| UniversalTest.ConstantStreamDistances | src/main/java/org/jiumao/nist/random/Universal.java:255-263 | in a constant stream every summed distance is 1 |
| UniversalTest.Measure | src/main/java/org/jiumao/nist/random/Universal.java:201-266 | the measured statistic carries the ladder's L, Q = 10 * 2^L, K = n / L - Q of at least 1000 * 2^L, the discarded bits n mod L, and the log2 sum over the block distances |
| UniversalTest.MeasuredDistances | src/main/java/org/jiumao/nist/random/Universal.java:248-263 | every distance the measurement sums lies between 1 and its block number and reaches back to the last earlier block with the same pattern |
| UniversalTest.GuardNeverFires | src/main/java/org/jiumao/nist/random/Universal.java:224-229 | Q is computed as 10 * 2^L, so the LOrQOutOfRange branch can never be taken |
| UniversalTest.IsRandom | src/main/java/org/jiumao/nist/random/Universal.java:188-278 | a short stream fails with pValue 0; otherwise L, Q, K, bitsDiscarded, the table values, sum and phi = sum / K are stored, an out-of-range p-value sets PValueOutOfRange, and the verdict is p >= alpha regardless |
| UniversalTest.OutOfRangeStillPasses | src/main/java/org/jiumao/nist/random/Universal.java:266-274 | a p-value above 1 records PValueOutOfRange and still passes |
| DiscreteFourierTransformTest.New | src/main/java/org/jiumao/nist/random/DiscreteFourierTransform.java:652-677 | both constructors build the base state and zero percentile, observed and expected peaks and the normalised difference |
| DiscreteFourierTransformTest.Finalize | src/main/java/org/jiumao/nist/random/DiscreteFourierTransform.java:684-690 | finalize() zeroes the four results and keeps the base state |
| DiscreteFourierTransformTest.Initialize | src/main/java/org/jiumao/nist/random/DiscreteFourierTransform.java:804-811 | Initialize() resets the base state and zeroes the four results |
| DiscreteFourierTransformTest.Trial | src/main/java/org/jiumao/nist/random/DiscreteFourierTransform.java:516-527 | the trial divisors run 4, 2, 3, 5 and then go up by 2, so the j-th trial from the second on is 2j - 1 |
| DiscreteFourierTransformTest.TrialIsPrime | src/main/java/org/jiumao/nist/random/DiscreteFourierTransform.java:518-531 | a trial that divides the remaining quotient after all earlier trials failed is 2, 4 or a prime |
| DiscreteFourierTransformTest.TrialBound | src/main/java/org/jiumao/nist/random/DiscreteFourierTransform.java:518-527 | while trials keep failing, the trial divisor never passes the remaining quotient, so the loop ends |
| DiscreteFourierTransformTest.Step | src/main/java/org/jiumao/nist/random/DiscreteFourierTransform.java:518-540 | one pass of the do-while keeps its invariant: the factors stored so far times the quotient give n, every factor is 4 or a prime, and a 2 is only ever in front |
| DiscreteFourierTransformTest.Factorize | src/main/java/org/jiumao/nist/random/DiscreteFourierTransform.java:518-540 | the do-while ends with factors whose product is n, each 4 or a prime, with a 2 only in front |
| DiscreteFourierTransformTest.Factors | src/main/java/org/jiumao/nist/random/DiscreteFourierTransform.java:511-540 | the factor table drfti1 builds for n >= 2 multiplies back to n and has that shape |
| DiscreteFourierTransformTest.FactorsAreFew | src/main/java/org/jiumao/nist/random/DiscreteFourierTransform.java:529-531 | every factor is at least 2, so k factors multiply to at least 2^k |
| DiscreteFourierTransformTest.Drfti1 | src/main/java/org/jiumao/nist/random/DiscreteFourierTransform.java:505-542 | corrected drfti1 with room for every factor: ifac[0] = n, ifac[1] = nf, and ifac[2..] holds nf well-shaped factors whose product is n |
| DiscreteFourierTransformTest.Drfti1AsWritten | src/main/java/org/jiumao/nist/random/DiscreteFourierTransform.java:530-542 | drfti1 into the 15-slot ifac of isRandom throws ArrayIndexOutOfBounds exactly when n has more than 13 factors; otherwise the table agrees with the corrected one |
| DiscreteFourierTransformTest.PowerOfThreeFactors | src/main/java/org/jiumao/nist/random/DiscreteFourierTransform.java:518-540 | 3^e is factored into exactly e threes |
| DiscreteFourierTransformTest.LongStreamOverflowsFactorTable | src/main/java/org/jiumao/nist/random/DiscreteFourierTransform.java:731 | a stream of 3^14 = 4782969 bits overruns ifac = new int[15] |
| DiscreteFourierTransformTest.Signal | src/main/java/org/jiumao/nist/random/DiscreteFourierTransform.java:729-761 | X[i] is +1 for a one and -1 for a zero, and X[n] stays 0 |
| DiscreteFourierTransformTest.Moduli | src/main/java/org/jiumao/nist/random/DiscreteFourierTransform.java:732-767 | m has n / 2 + 1 entries |
| DiscreteFourierTransformTest.Peaks | src/main/java/org/jiumao/nist/random/DiscreteFourierTransform.java:768-774 | the count over i below a bound never exceeds the bound |
| DiscreteFourierTransformTest.PeaksAreTheBelowThreshold | src/main/java/org/jiumao/nist/random/DiscreteFourierTransform.java:768-774 | the counting loop counts exactly the indices whose modulus is below the threshold |
| DiscreteFourierTransformTest.PeakCount | src/main/java/org/jiumao/nist/random/DiscreteFourierTransform.java:768-774 | at most n / 2 peaks are counted |
| DiscreteFourierTransformTest.PeakCountIsBelowThreshold | src/main/java/org/jiumao/nist/random/DiscreteFourierTransform.java:768-774 | the peak count is the number of i < n / 2 with m[i] < sqrt(2.995732274 n) |
| DiscreteFourierTransformTest.IsRandom | src/main/java/org/jiumao/nist/random/DiscreteFourierTransform.java:715-797 | a short stream only fails; otherwise observedPeaks is the peak count, percentile is count / (n / 2) * 100 with n / 2 an int division, expectedPeaks is 0.95 n / 2, the normalised difference is (count - 0.95 n / 2) / sqrt(n / 4 * 0.95 * 0.05), and the verdict is p >= alpha with no range or NaN check |
| DiscreteFourierTransformTest.IsRandomAsWritten | src/main/java/org/jiumao/nist/random/DiscreteFourierTransform.java:723-763 | as written, isRandom throws exactly when drfti1 overruns ifac, and otherwise ends as the corrected test does |
| CyclicWindows.Window | src/main/java/org/jiumao/nist/random/Serial.java:104-111 | window i is the m bits from position i, with the positions taken mod n so that the window wraps past the end |
| CyclicWindows.Code | src/main/java/org/jiumao/nist/random/Serial.java:105-111 | after reading j bits, starting from k = 1, the code lies in [2^j, 2^(j+1)) |
| CyclicWindows.Slot | src/main/java/org/jiumao/nist/random/Serial.java:104-112 | the counter P[k - 1] a window of length m increments lies in level m, that is [2^m - 1, 2^(m+1) - 1) |
| CyclicWindows.CodeReadsWindow | src/main/java/org/jiumao/nist/random/Serial.java:105-111 | k is the window read as a binary number, first bit most significant, behind a marker bit worth 2^m |
| CyclicWindows.Cell | src/main/java/org/jiumao/nist/random/Serial.java:115-116 | the counter of an m-bit pattern is 2^m - 1 plus the pattern's value, inside level m |
| CyclicWindows.SlotIsCell | src/main/java/org/jiumao/nist/random/Serial.java:104-112 | a window increments the counter of pattern w exactly when its bits are w |
| CyclicWindows.Counts | src/main/java/org/jiumao/nist/random/Serial.java:96-113 | the counter array has 2^(m+1) - 1 entries |
| CyclicWindows.CountsMatchWindows | src/main/java/org/jiumao/nist/random/Serial.java:104-113 | the counter of pattern w holds the number of positions whose cyclic window equals w |
| CyclicWindows.CountsBelowLevel | src/main/java/org/jiumao/nist/random/Serial.java:102-113 | the counters in front of level m are never incremented |
| CyclicWindows.Level | src/main/java/org/jiumao/nist/random/Serial.java:115-116 | the 2^m counters the sum reads, from P[2^m - 1] on |
| CyclicWindows.LevelCountsPattern | src/main/java/org/jiumao/nist/random/Serial.java:104-116 | level entry v counts the n cyclic windows whose bits read as v |
| CyclicWindows.CountsTotal | src/main/java/org/jiumao/nist/random/Serial.java:104-113 | every position increments exactly one counter, so the counters add up to the number of positions handled |
| CyclicWindows.LevelTotal | src/main/java/org/jiumao/nist/random/Serial.java:104-116 | the level-m counters add up to n |
| CyclicWindows.SquaresBound | src/main/java/org/jiumao/nist/random/Serial.java:114-117 | for any counters, their number times the sum of squares is at least the square of the sum |
| CyclicWindows.ConstantStreamLevel | src/main/java/org/jiumao/nist/random/Serial.java:104-116 | a constant stream puts all n windows into the cell of m copies of its bit and leaves every other counter 0 |
| CyclicWindows.ConstantStreamSquares | src/main/java/org/jiumao/nist/random/Serial.java:114-116 | so the squares of its level counters add up to n^2 |
| CyclicWindows.LevelEntriesBounded | src/main/java/org/jiumao/nist/random/Serial.java:104-116 | no counter exceeds n |
| CyclicWindows.MaximumBlockSizeRecommended | src/main/java/org/jiumao/nist/random/Serial.java:351-354 | (int) max(1, log2 n - 2) is never below 1, whatever the logarithm returns |
| CyclicWindows.RecommendationBelow | src/main/java/org/jiumao/nist/random/ApproximateEntropy.java:328-331 | a block length b >= 2 is above the recommendation whenever the computed log2 n is below b + 2 |
| ApproximateEntropyTest.New | src/main/java/org/jiumao/nist/random/ApproximateEntropy.java:60-89 | both constructors set block length 10 and clear every result |
| ApproximateEntropyTest.Finalize | src/main/java/org/jiumao/nist/random/ApproximateEntropy.java:95-104 | finalize() clears the class's own fields, block length included, and keeps the base state |
| ApproximateEntropyTest.Initialize | src/main/java/org/jiumao/nist/random/ApproximateEntropy.java:210-220 | Initialize() resets the base state and the results and keeps the block length |
| ApproximateEntropyTest.SetBlockLength | src/main/java/org/jiumao/nist/random/ApproximateEntropy.java:247-250 | the setter changes the block length and nothing else |
| ApproximateEntropyTest.Phi | src/main/java/org/jiumao/nist/random/ApproximateEntropy.java:148-183 | block size 0 gives 0; block size -1 writes P[0] of an empty array (ArrayIndexOutOfBounds); a smaller one makes a negative array length (NegativeArraySize); a positive one always yields a value |
| ApproximateEntropyTest.EntropySumReadsFractions | src/main/java/org/jiumao/nist/random/ApproximateEntropy.java:173-178 | the sum takes logarithms only of c / n with 0 < c <= n: two logarithms that agree on (0, 1] give the same sum |
| ApproximateEntropyTest.PhiReadsFractions | src/main/java/org/jiumao/nist/random/ApproximateEntropy.java:173-179 | empty cells never reach Math.log, so log 0 = -Infinity never turns phi into NaN |
| ApproximateEntropyTest.PhiOfConstant | src/main/java/org/jiumao/nist/random/ApproximateEntropy.java:163-180 | a constant stream has phi = 0 for every positive block size when log 1 = 0 |
| ApproximateEntropyTest.Exceeded | src/main/java/org/jiumao/nist/random/ApproximateEntropy.java:140-146 | the early exit sets blockSizeExceeded, the recommendation, ResultsInaccurate and a failing verdict, and changes nothing else |
| ApproximateEntropyTest.Phis | src/main/java/org/jiumao/nist/random/ApproximateEntropy.java:147-184 | the loop over block sizes m and m + 1 completes exactly when m >= 0; m = -1 throws ArrayIndexOutOfBounds and a smaller m NegativeArraySize |
| ApproximateEntropyTest.Scored | src/main/java/org/jiumao/nist/random/ApproximateEntropy.java:185-202 | apEn = phi - phiPlusOne and chiSquared = 2 n (log 2 - apEn) are stored; a NaN p-value becomes 0 with MathematicianNAN and fails; otherwise the error is NoError and the verdict is p >= alpha |
| ApproximateEntropyTest.IsRandom | src/main/java/org/jiumao/nist/random/ApproximateEntropy.java:126-204 | a short stream fails with InsufficientNumberOfBits; a block length above the recommendation exits early before counting; a negative block length throws; otherwise the stream is scored on phi for m and m + 1 |
| ApproximateEntropyTest.MaximumBlockSizeRecommended | src/main/java/org/jiumao/nist/random/ApproximateEntropy.java:328-331 | the recommendation is at least 1 |
| ApproximateEntropyTest.PassIsPValueAboveAlpha | src/main/java/org/jiumao/nist/random/ApproximateEntropy.java:190-202 | a completed run passes exactly when its p-value is at least alpha and the error is NoError |
| ApproximateEntropyTest.DefaultBlockLengthExceeded | src/main/java/org/jiumao/nist/random/ApproximateEntropy.java:60-71 | with the default block length 10, every stream whose computed log2 n is below 12 (n = 1024 among them) takes the early exit and is never counted |
| ApproximateEntropyTest.ConstantStreamChiSquared | src/main/java/org/jiumao/nist/random/ApproximateEntropy.java:185-188 | a constant stream has apEn = 0, so chiSquared is 2 n log 2 |
| ApproximateEntropyTest.ZeroPhis | src/main/java/org/jiumao/nist/random/ApproximateEntropy.java:147-188 | when both phi values are 0 the run is scored on them |
| SerialTest.New | src/main/java/org/jiumao/nist/random/Serial.java:125-154 | both constructors set block length 16 and clear every result |
| SerialTest.Finalize | src/main/java/org/jiumao/nist/random/Serial.java:160-169 | finalize() clears the class's own fields, block length included, and keeps the base state |
| SerialTest.Initialize | src/main/java/org/jiumao/nist/random/Serial.java:234-243 | Initialize() resets the base state and the results and keeps the block length |
| SerialTest.SetBlockLength | src/main/java/org/jiumao/nist/random/Serial.java:270-273 | the setter changes the block length and leaves the base state alone |
| SerialTest.MaximumBlockSizeRecommended | src/main/java/org/jiumao/nist/random/Serial.java:351-354 | the recommendation is at least 1 |
| SerialTest.Psi2 | src/main/java/org/jiumao/nist/random/Serial.java:88-120 | m = 0 and m = -1 give 0 without counting; a smaller m makes a negative array length (NegativeArraySize); 1 <= m < 1024 gives a finite number |
| SerialTest.StatisticExact | src/main/java/org/jiumao/nist/random/Serial.java:117 | sum * 2^m / n - n has no rounding trouble for m < 1024 |
| SerialTest.Psi2Formula | src/main/java/org/jiumao/nist/random/Serial.java:104-117 | for 1 <= m < 1024, psi2 is the sum of squares of the level-m window counts, times 2^m / n, minus n |
| SerialTest.ScaledBound | src/main/java/org/jiumao/nist/random/Serial.java:117 | the scaled statistic is non-negative once 2^m times the sum of squares reaches n^2 |
| SerialTest.ScaledSquare | src/main/java/org/jiumao/nist/random/Serial.java:117 | a sum of squares n^2 scales to n (2^m - 1) |
| SerialTest.Psi2NonNegative | src/main/java/org/jiumao/nist/random/Serial.java:88-120 | psi^2 is never negative: n windows over 2^m counters give a sum of squares of at least n^2 / 2^m |
| SerialTest.Psi2OfConstant | src/main/java/org/jiumao/nist/random/Serial.java:104-117 | a constant stream gives psi^2 its largest value, n (2^m - 1) |
| SerialTest.Psi2OfOneCounter | src/main/java/org/jiumao/nist/random/Serial.java:114-117 | a sum of squares of n^2 gives n (2^m - 1) |
| SerialTest.StatisticOfSquare | src/main/java/org/jiumao/nist/random/Serial.java:117 | the statistic of a sum of squares n^2 over n windows is n (2^m - 1) |
| SerialTest.Psis | src/main/java/org/jiumao/nist/random/Serial.java:199-201 | the three psi2 calls complete exactly when m >= 1; otherwise psi2(m - 2) throws NegativeArraySize |
| SerialTest.Measured | src/main/java/org/jiumao/nist/random/Serial.java:198-203 | the error is cleared, psim, psim1 and psim2 are psi^2 for m, m - 1 and m - 2, delta1 = psim - psim1 and delta2 = psim - 2 psim1 + psim2 |
| SerialTest.IsRandom | src/main/java/org/jiumao/nist/random/Serial.java:191-228 | a short stream fails; a block length below 1 throws; a NaN first p-value is zeroed and fails before pvalue2 is computed; a NaN second one is zeroed and fails; otherwise both p-values are kept |
| SerialTest.VerdictIsBothChecks | src/main/java/org/jiumao/nist/random/Serial.java:204-227 | a completed run passes exactly when both p-values are numbers at or above alpha and the error is NoError |
| SerialTest.BlockLengthOneDeltas | src/main/java/org/jiumao/nist/random/Serial.java:199-203 | with m = 1 the two shorter psi^2 are 0, so delta1 = delta2 = psi^2_1 |
| SerialTest.DefaultBlockLengthRuns | src/main/java/org/jiumao/nist/random/Serial.java:125-136 | a new test runs with m = 16 on any stream of at least 128 bits |
| SerialTest.BlockLengthZeroThrows | src/main/java/org/jiumao/nist/random/Serial.java:199-201 | block length 0 throws NegativeArraySize from psi2(-2) |
| NonOverlappingTest.New | src/main/java/org/jiumao/nist/random/NonOverlappingTemplateMatchings.java:18-19 | a new test starts from the base state and the 22-entry table of template counts, which keeps the evaluation invariant |
| NonOverlappingTest.Skip | src/main/java/org/jiumao/nist/random/NonOverlappingTemplateMatchings.java:47-50 | SKIP is 1 below 148 templates, and otherwise the largest s >= 1 with 148 s <= count |
| NonOverlappingTest.Thinned | src/main/java/org/jiumao/nist/random/NonOverlappingTemplateMatchings.java:51 | the count written back is non-negative for a non-negative count |
| NonOverlappingTest.ThinnedRange | src/main/java/org/jiumao/nist/random/NonOverlappingTemplateMatchings.java:47-51 | a count of at least 148 thins to a value in [1, 296) |
| NonOverlappingTest.ThinnedFixed | src/main/java/org/jiumao/nist/random/NonOverlappingTemplateMatchings.java:47-51 | a count below 296 thins to itself |
| NonOverlappingTest.ThinningSettles | src/main/java/org/jiumao/nist/random/NonOverlappingTemplateMatchings.java:47-51 | thinning lands below 296, keeps a positive count positive and is idempotent, so the table changes on the first evaluation of a length and never after |
| NonOverlappingTest.LambdaGuard | src/main/java/org/jiumao/nist/random/NonOverlappingTemplateMatchings.java:39-44 | the isNegative-or-isZero guard on lambda = (M - m + 1) / 2^m holds exactly when a block is shorter than the template or 2^m overflows to infinity |
| NonOverlappingTest.PiTable | src/main/java/org/jiumao/nist/random/NonOverlappingTemplateMatchings.java:53-63 | the probability table has K + 1 = 6 entries |
| NonOverlappingTest.PiTableSumsToOne | src/main/java/org/jiumao/nist/random/NonOverlappingTemplateMatchings.java:53-63 | when the Poisson terms are finite the six entries add up to exactly 1 |
| NonOverlappingTest.BlockCounts | src/main/java/org/jiumao/nist/random/NonOverlappingTemplateMatchings.java:74-90 | the block loop yields one count per block |
| NonOverlappingTest.HitsAreMatches | src/main/java/org/jiumao/nist/random/NonOverlappingTemplateMatchings.java:76-88 | every hit the j loop records is a full occurrence of the template that fits inside the block |
| NonOverlappingTest.HitsAreDisjoint | src/main/java/org/jiumao/nist/random/NonOverlappingTemplateMatchings.java:84-87 | after a hit the scan jumps past it, so recorded hits start at least m apart and never overlap |
| NonOverlappingTest.HitsCoverMatches | src/main/java/org/jiumao/nist/random/NonOverlappingTemplateMatchings.java:76-88 | the scan misses nothing: every occurrence in the block starts inside a recorded hit |
| NonOverlappingTest.HitsFitInBlock | src/main/java/org/jiumao/nist/random/NonOverlappingTemplateMatchings.java:76-89 | disjoint m-bit hits fit in the block: W_obs * m <= M |
| NonOverlappingTest.WindowReadsBits | src/main/java/org/jiumao/nist/random/NonOverlappingTemplateMatchings.java:78-83 | over a buffer that holds the bits, the k loop reports a match exactly when the template agrees with them from k on |
| NonOverlappingTest.ReadsGiveWindows | src/main/java/org/jiumao/nist/random/NonOverlappingTemplateMatchings.java:78-83 | a buffer that reads as the bits makes every window read report the template's occurrences in those bits |
| NonOverlappingTest.BlockReadsBits | src/main/java/org/jiumao/nist/random/NonOverlappingTemplateMatchings.java:76-88 | the j loop over the stream counts exactly the hits recorded on its bits |
| NonOverlappingTest.HitOffsetsStep | src/main/java/org/jiumao/nist/random/NonOverlappingTemplateMatchings.java:84-87 | a match at j is recorded and the scan continues at j + m; a miss continues at j + 1 |
| NonOverlappingTest.HitCounts | src/main/java/org/jiumao/nist/random/NonOverlappingTemplateMatchings.java:74-90 | the reference hit counts have one entry per block |
| NonOverlappingTest.CountsReadBits | src/main/java/org/jiumao/nist/random/NonOverlappingTemplateMatchings.java:74-90 | over a buffer that reads as the bits, Wj is the list of per-block hit counts of those bits |
| NonOverlappingTest.Thin | src/main/java/org/jiumao/nist/random/NonOverlappingTemplateMatchings.java:51 | numOfTemplates[m] /= SKIP changes that one entry to its thinning and leaves every other entry and the base state alone |
| NonOverlappingTest.IsRandom | src/main/java/org/jiumao/nist/random/NonOverlappingTemplateMatchings.java:30-106 | a negative block length or stream length throws NegativeArraySize; a block shorter than the template or a template of 1024 bits or more returns false untouched; a length with no table slot throws ArrayIndexOutOfBounds; otherwise the table entry is thinned, a thinned count of 0 returns false; the template read then throws NullPointer without a buffer and IndexOutOfBounds when the buffer holds fewer than 4 m bytes, before any block is scanned; otherwise the first template's verdict is that its p-value is within [0, 1] |
| NonOverlappingTest.TemplateFault | src/main/java/org/jiumao/nist/random/NonOverlappingTemplateMatchings.java:68-70 | the template reads getInt(4 k) for k < m succeed exactly when m is 0 or the buffer's limit is at least 4 m bytes; otherwise they throw NullPointer without a buffer and IndexOutOfBounds with one |
| NonOverlappingTest.ShortBufferThrowsAtTemplate | src/main/java/org/jiumao/nist/random/NonOverlappingTemplateMatchings.java:64-70 | a buffer holding every scanned bit but fewer than 4 m bytes lets the block scan succeed, yet the evaluation throws IndexOutOfBounds at the template read |
| NonOverlappingTest.DefaultBlockLengthRejects | src/main/java/org/jiumao/nist/random/NonOverlappingTemplateMatchings.java:31-44 | with blockLength 0, the value every test starts with, a non-empty stream is rejected without reading a bit and without touching the table |
| NonOverlappingTest.CountsOfCoveredStream | src/main/java/org/jiumao/nist/random/NonOverlappingTemplateMatchings.java:74-90 | on a stream whose buffer holds all 8 M bits, the observed counts are the hit counts of those bits, and each has W_obs * m <= M |
| NonOverlappingTest.HitCountsFit | src/main/java/org/jiumao/nist/random/NonOverlappingTemplateMatchings.java:74-90 | each block's count of disjoint m-bit hits fits in the block |
| NonOverlappingTest.TableSettlesAfterOneCall | src/main/java/org/jiumao/nist/random/NonOverlappingTemplateMatchings.java:47-51 | a second evaluation of the same length finds the table as the first left it and writes the same value back |
| OverlappingTest.New | src/main/java/org/jiumao/nist/random/OverlappingTemplateMatchings.java:20-22 | a new test starts from the base state with six zero tallies and the six initial probabilities |
| OverlappingTest.WindowOnes | src/main/java/org/jiumao/nist/random/OverlappingTemplateMatchings.java:49-53 | a failed read in the k loop throws NullPointer without a buffer and IndexOutOfBounds otherwise |
| OverlappingTest.BlockWindows | src/main/java/org/jiumao/nist/random/OverlappingTemplateMatchings.java:47-56 | the j loop fails only with the read fault of the stream |
| OverlappingTest.BlockTallies | src/main/java/org/jiumao/nist/random/OverlappingTemplateMatchings.java:46-61 | the block loop yields one W_obs per block, or the stream's read fault |
| OverlappingTest.OnesTallies | src/main/java/org/jiumao/nist/random/OverlappingTemplateMatchings.java:46-56 | the reference tallies have one entry per block |
| OverlappingTest.WindowsBound | src/main/java/org/jiumao/nist/random/OverlappingTemplateMatchings.java:48-56 | a block has M - m + 1 windows, so W_obs never exceeds M - m + 1 |
| OverlappingTest.OnesBlockHitsEverywhere | src/main/java/org/jiumao/nist/random/OverlappingTemplateMatchings.java:48-56 | in a block of ones every window is a hit: W_obs = M - m + 1 |
| OverlappingTest.ZerosBlockHitsNowhere | src/main/java/org/jiumao/nist/random/OverlappingTemplateMatchings.java:48-56 | in a block of zeros no window of a non-empty template is a hit |
| OverlappingTest.WindowReadsBits | src/main/java/org/jiumao/nist/random/OverlappingTemplateMatchings.java:49-53 | over a buffer that reads as the bits, the k loop reports a match exactly when the window's bits are all ones |
| OverlappingTest.WindowReadsStep | src/main/java/org/jiumao/nist/random/OverlappingTemplateMatchings.java:50-53 | one read of the k loop followed by the rest of the window agrees with the all-ones reading of the bits |
| OverlappingTest.WindowJoin | src/main/java/org/jiumao/nist/random/OverlappingTemplateMatchings.java:50-53 | bit pos + k in front of the rest of the window gives the window's reading from k |
| OverlappingTest.WindowOnesStep | src/main/java/org/jiumao/nist/random/OverlappingTemplateMatchings.java:50-53 | the k loop reads every bit without a break and keeps a match only while each bit read is 1 |
| OverlappingTest.ReadsGiveWindows | src/main/java/org/jiumao/nist/random/OverlappingTemplateMatchings.java:49-53 | a buffer that reads as the bits makes every window read report whether those bits are all ones |
| OverlappingTest.BlockWindowsStep | src/main/java/org/jiumao/nist/random/OverlappingTemplateMatchings.java:48-56 | the j loop adds 1 for a hit and 0 otherwise, and passes on the first fault |
| OverlappingTest.ReadsStep | src/main/java/org/jiumao/nist/random/OverlappingTemplateMatchings.java:48-56 | the count at window j follows from the count at j + 1 on both the stream and its bits |
| OverlappingTest.BlockReadsBits | src/main/java/org/jiumao/nist/random/OverlappingTemplateMatchings.java:48-56 | over a buffer that reads as the bits, W_obs of a block is the number of its all-ones windows |
| OverlappingTest.TalliesReadBits | src/main/java/org/jiumao/nist/random/OverlappingTemplateMatchings.java:46-56 | over a buffer that reads as the bits, the block loop yields the reference tallies of those bits |
| OverlappingTest.TalliesJoin | src/main/java/org/jiumao/nist/random/OverlappingTemplateMatchings.java:46-56 | the last block's W_obs appended to the earlier ones gives the tallies of all blocks |
| OverlappingTest.OnesTalliesSnoc | src/main/java/org/jiumao/nist/random/OverlappingTemplateMatchings.java:46-56 | the reference tallies grow one block at a time, in block order |
| OverlappingTest.BufferReads | src/main/java/org/jiumao/nist/random/OverlappingTemplateMatchings.java:51 | the buffer's first n bits are what GetBitPosition returns |
| OverlappingTest.TalliesOfCoveredStream | src/main/java/org/jiumao/nist/random/OverlappingTemplateMatchings.java:46-56 | when the buffer holds the N M bits of the blocks, the scan succeeds and counts the all-ones windows of those bits |
| OverlappingTest.WindowFails | src/main/java/org/jiumao/nist/random/OverlappingTemplateMatchings.java:50-53 | a read that fails anywhere in the window makes the window fail |
| OverlappingTest.BlockFails | src/main/java/org/jiumao/nist/random/OverlappingTemplateMatchings.java:48-56 | a window that fails anywhere in the block makes the block fail |
| OverlappingTest.ScanFailsPastBuffer | src/main/java/org/jiumao/nist/random/OverlappingTemplateMatchings.java:46-56 | the last window of the last block reads bit N M - 1, so the scan throws when that bit is out of reach |
| OverlappingTest.AddressableBits | src/main/java/org/jiumao/nist/random/OverlappingTemplateMatchings.java:51 | bit p is readable exactly when the buffer holds p + 1 bits |
| OverlappingTest.ScanSucceedsIff | src/main/java/org/jiumao/nist/random/OverlappingTemplateMatchings.java:46-56 | with a template of 1 .. M ones and at least one block, the scan succeeds exactly when the buffer holds all N M bits |
| OverlappingTest.DegenerateBlocks | src/main/java/org/jiumao/nist/random/OverlappingTemplateMatchings.java:48-56 | the empty template hits at every one of the M + 1 windows; a template longer than M fits none |
| OverlappingTest.DegenerateTallies | src/main/java/org/jiumao/nist/random/OverlappingTemplateMatchings.java:46-56 | so those templates give every block the tally M + 1 or 0 without reading a bit |
| OverlappingTest.Bucket | src/main/java/org/jiumao/nist/random/OverlappingTemplateMatchings.java:57-60 | a block goes into slot W_obs when W_obs <= 4 and into slot K = 5 exactly when W_obs >= 5 |
| OverlappingTest.Tally | src/main/java/org/jiumao/nist/random/OverlappingTemplateMatchings.java:46-61 | the tally table keeps its K + 1 slots |
| OverlappingTest.TallyCounts | src/main/java/org/jiumao/nist/random/OverlappingTemplateMatchings.java:57-60 | every slot grows by the number of blocks whose W_obs falls in it |
| OverlappingTest.TallyTotal | src/main/java/org/jiumao/nist/random/OverlappingTemplateMatchings.java:46-61 | every block is tallied exactly once, so nu grows by N in total |
| OverlappingTest.TallyKeepsNonNegative | src/main/java/org/jiumao/nist/random/OverlappingTemplateMatchings.java:57-60 | tallying only raises slots, so non-negative tallies stay non-negative |
| OverlappingTest.PiTable | src/main/java/org/jiumao/nist/random/OverlappingTemplateMatchings.java:39-44 | pi[i] = Pr(i, eta) for i < K, over K + 1 slots |
| OverlappingTest.PiTableSumsToOne | src/main/java/org/jiumao/nist/random/OverlappingTemplateMatchings.java:39-44 | when the five probabilities are finite, the six entries add up to exactly 1 |
| OverlappingTest.Blocks | src/main/java/org/jiumao/nist/random/OverlappingTemplateMatchings.java:32 | N = n / M is the number of whole blocks in n bits, and 0 for a negative n |
| OverlappingTest.IsRandom | src/main/java/org/jiumao/nist/random/OverlappingTemplateMatchings.java:26-74 | a negative template length throws NegativeArraySize; otherwise the run succeeds exactly when the scan does, and then nu grows by the block tallies (N in total), pi is recomputed from eta, pValue is set, and the verdict is p > ALPHA |
| OverlappingTest.ScannedStreamTallies | src/main/java/org/jiumao/nist/random/OverlappingTemplateMatchings.java:46-61 | with a template of 1 .. M ones and at least one block, the run succeeds exactly when the buffer holds every bit of the blocks, and nu then grows by the tallies of those bits |
| OverlappingTest.EmptyTemplateFillsLastSlot | src/main/java/org/jiumao/nist/random/OverlappingTemplateMatchings.java:46-61 | the empty template puts every block into the last slot and leaves the other slots alone |
| OverlappingTest.OnesStreamTallies | src/main/java/org/jiumao/nist/random/OverlappingTemplateMatchings.java:46-61 | in a stream of ones every block has M - m + 1 hits, and for templates up to M + 1 - K every block lands in the last slot |
| RandomExcursionsTest.New | src/main/java/org/jiumao/nist/random/RandomExcursions.java:19-32 | a new test starts from the base state with eight zero counters |
| RandomExcursionsTest.Kind | src/main/java/org/jiumao/nist/random/RandomExcursions.java:111-114 | GetType() reports RandomExcursions, a kind the suite has no slot for |
| RandomExcursionsTest.MinimumLength | src/main/java/org/jiumao/nist/random/RandomExcursions.java:117-121 | the test imposes no minimum length |
| RandomExcursionsTest.Sums | src/main/java/org/jiumao/nist/random/RandomExcursions.java:46-48 | S_k has one partial sum per bit |
| RandomExcursionsTest.SumsArePrefixes | src/main/java/org/jiumao/nist/random/RandomExcursions.java:46-48 | S_k[i] is the +1/-1 walk of the first i + 1 bits, so S_k[0] is never 0 |
| RandomExcursionsTest.Zeros | src/main/java/org/jiumao/nist/random/RandomExcursions.java:47-55 | the recorded positions are exactly the positions 1 <= p < i where the walk is at zero, in increasing order |
| RandomExcursionsTest.Capacity | src/main/java/org/jiumao/nist/random/RandomExcursions.java:43 | the cycle table has max(1000, n / 100) slots |
| RandomExcursionsTest.ScanAsWritten | src/main/java/org/jiumao/nist/random/RandomExcursions.java:47-56 | as written the loop records every return to zero while fewer than cycle.length have been seen; J reaches cycle.length before it can exceed it, so the store cycle[J] throws ArrayIndexOutOfBounds instead of the guard returning false |
| RandomExcursionsTest.ScanGuarded | src/main/java/org/jiumao/nist/random/RandomExcursions.java:47-56 | with the guard J >= cycle.length the loop records the same zeros, and gives up instead of storing out of bounds |
| RandomExcursionsTest.Cycles | src/main/java/org/jiumao/nist/random/RandomExcursions.java:57-59 | cycle[1..J] holds the returns to zero in order, with n stored last; the final zero is replaced by n when the walk ends at zero |
| RandomExcursionsTest.CyclesAreOrdered | src/main/java/org/jiumao/nist/random/RandomExcursions.java:64-83 | each excursion starts one past the previous end, the first at 0, and ends no earlier than it starts |
| RandomExcursionsTest.StateIndexIsInverse | src/main/java/org/jiumao/nist/random/RandomExcursions.java:73-78 | filing a visit to x at x + 4 below zero and x + 3 above is a bijection between the eight states and counter[], with slot i holding stateX[i] |
| RandomExcursionsTest.Counter | src/main/java/org/jiumao/nist/random/RandomExcursions.java:70-80 | counter[] has eight non-negative slots |
| RandomExcursionsTest.CounterCountsVisits | src/main/java/org/jiumao/nist/random/RandomExcursions.java:70-80 | counter[i] is the number of positions of the excursion where the walk stands at stateX[i] |
| RandomExcursionsTest.Counters | src/main/java/org/jiumao/nist/random/RandomExcursions.java:69-91 | one counter table per excursion, each with eight non-negative slots |
| RandomExcursionsTest.Nu | src/main/java/org/jiumao/nist/random/RandomExcursions.java:85-90 | nu[k][i] counts at most J excursions |
| RandomExcursionsTest.NuColumnTotal | src/main/java/org/jiumao/nist/random/RandomExcursions.java:85-90 | every excursion lands in exactly one row of every column, so each column of nu adds up to the number of excursions |
| RandomExcursionsTest.NuColumnsCountCycles | src/main/java/org/jiumao/nist/random/RandomExcursions.java:69-90 | for the tables built from a walk's excursions, each column of nu adds up to J |
| RandomExcursionsTest.MathMax | src/main/java/org/jiumao/nist/random/RandomExcursions.java:61 | Math.max on doubles is NaN when either side is, and otherwise the larger side |
| RandomExcursionsTest.DecideIsFirstInRange | src/main/java/org/jiumao/nist/random/RandomExcursions.java:93-107 | the verdict is p > 0.01 for the first state whose p-value is within [0, 1], and that p-value is the one left stored; when none is in range the test fails with the last one stored |
| RandomExcursionsTest.PValues | src/main/java/org/jiumao/nist/random/RandomExcursions.java:93-99 | one p-value per state, in stateX order |
| RandomExcursionsTest.ExcursionsAsWritten | src/main/java/org/jiumao/nist/random/RandomExcursions.java:45-107 | as written, the code after the walk throws ArrayIndexOutOfBounds exactly when the walk has at least as many cycles as the table has slots |
| RandomExcursionsTest.Excursions | src/main/java/org/jiumao/nist/random/RandomExcursions.java:45-107 | with the corrected guard, a walk with too many cycles fails and leaves the state alone; otherwise only pValue of the base state changes |
| RandomExcursionsTest.IsRandomAsWritten | src/main/java/org/jiumao/nist/random/RandomExcursions.java:36-108 | as written, an empty bit sequence whose position 0 is readable throws at the store into S_k[0], and a non-empty one throws exactly when its walk fills the cycle table |
| RandomExcursionsTest.IsRandom | src/main/java/org/jiumao/nist/random/RandomExcursions.java:36-108 | with the guard corrected only an empty bit sequence throws; too many cycles fail without touching the state; the verdict is returned, not stored, and pValue is the only base field that changes |
| RandomExcursionsTest.EmptyStreamThrows | src/main/java/org/jiumao/nist/random/RandomExcursions.java:45-46 | on a stream with no bits, a failed read of position 0 throws before the array store does; the store's ArrayIndexOutOfBounds is thrown only when that read succeeds |
| RandomExcursionsTest.EmptyStreamFaults | src/main/java/org/jiumao/nist/random/RandomExcursions.java:45-46 | an empty stream without a buffer throws NullPointer, one with an empty buffer throws IndexOutOfBounds, and ArrayIndexOutOfBounds is thrown exactly when the buffer holds a byte |
| RandomExcursionsTest.AsWrittenAgreesBelowCapacity | src/main/java/org/jiumao/nist/random/RandomExcursions.java:47-59 | wherever the table is large enough, the code as written and the corrected code give the same result |
| RandomExcursionsTest.FewCyclesFail | src/main/java/org/jiumao/nist/random/RandomExcursions.java:61-62 | no more than max(0.005 sqrt(n), 500) excursions fails and leaves the state as it was |
| RandomExcursionsTest.JudgedDecides | src/main/java/org/jiumao/nist/random/RandomExcursions.java:62-107 | past the constraint, the verdict is p > 0.01 for the first state with an in-range p-value, that p-value is stored, and counter[] keeps the last excursion's counts |
| RandomExcursionsTest.LastCounter | src/main/java/org/jiumao/nist/random/RandomExcursions.java:69-80 | the counters of the last excursion are its visits to each state |
| RandomExcursionsTest.EnoughCyclesAreJudged | src/main/java/org/jiumao/nist/random/RandomExcursions.java:57-62 | with enough excursions and room in the table, the cycle table is non-empty and is judged as described |
| RandomExcursionsTest.VerdictIsFirstInRangeState | src/main/java/org/jiumao/nist/random/RandomExcursions.java:57-91 | after such a run counter[i] holds the last excursion's visits to stateX[i] |
| RandomExcursionsTest.AlternatingSums | src/main/java/org/jiumao/nist/random/RandomExcursions.java:46-48 | the walk of 0, 1, 0, 1, ... is -1 at even positions and 0 at odd ones |
| RandomExcursionsTest.ZerosCounted | src/main/java/org/jiumao/nist/random/RandomExcursions.java:47-55 | the recorded zeros are as many as the returns to zero |
| RandomExcursionsTest.AlternatingZeroCount | src/main/java/org/jiumao/nist/random/RandomExcursions.java:47-55 | an alternating walk returns to zero i / 2 times before position i |
| RandomExcursionsTest.AlternatingStreamOverflows | src/main/java/org/jiumao/nist/random/RandomExcursions.java:43-59 | 2000 alternating bits return to zero 1000 times, exactly the size of the cycle table: as written the code throws, while the guarded version fails the stream |
| LinearComplexityTest.New | src/main/java/org/jiumao/nist/random/LinearComplexity.java:14-18 | the implicit constructor builds the base state and leaves the test's own blockLength at 0 |
| LinearComplexityTest.SetBlockLength | src/main/java/org/jiumao/nist/random/LinearComplexity.java:126-128 | setBlockLength writes the test's own field and leaves the base state alone |
| LinearComplexityTest.BaseBlockLengthIgnored | src/main/java/org/jiumao/nist/random/LinearComplexity.java:18-26 | the field hides BaseRandom's blockLength, so setting the base one changes neither whether isRandom throws nor its verdict |
| LinearComplexityTest.Xor | src/main/java/org/jiumao/nist/random/LinearComplexity.java:62-63 | C[i] = (C[i] + P[i]) % 2, entry by entry |
| LinearComplexityTest.Start | src/main/java/org/jiumao/nist/random/LinearComplexity.java:35-45 | each block starts with C = B_ = 1, 0, ..., 0 |
| LinearComplexityTest.Shifted | src/main/java/org/jiumao/nist/random/LinearComplexity.java:55-61 | P is B_ shifted up by N_ - m places, or ArrayIndexOutOfBounds for a write past the end |
| LinearComplexityTest.ShiftedFails | src/main/java/org/jiumao/nist/random/LinearComplexity.java:59-61 | the shift throws exactly when a one of B_ would land at index M or beyond |
| LinearComplexityTest.Step | src/main/java/org/jiumao/nist/random/LinearComplexity.java:49-72 | one round of the while loop keeps the array sizes, 0 <= L <= N_ + 1 and -1 <= m <= N_ |
| LinearComplexityTest.Run | src/main/java/org/jiumao/nist/random/LinearComplexity.java:41-72 | the first n rounds keep the same shape |
| LinearComplexityTest.JavaSumIsConv | src/main/java/org/jiumao/nist/random/LinearComplexity.java:50-53 | the d the loop computes, mod 2, is the discrepancy of C at N_ |
| LinearComplexityTest.Discrepancy | src/main/java/org/jiumao/nist/random/LinearComplexity.java:50-53 | the loop over i <= L reads every non-zero coefficient of C, and with L = 0 the discrepancy is the bit itself |
| LinearComplexityTest.StepFails | src/main/java/org/jiumao/nist/random/LinearComplexity.java:54-61 | a round throws ArrayIndexOutOfBounds exactly when L is 0, the bit is a one and it is the last round: B_ = 1 is then shifted by M |
| LinearComplexityTest.StepGenerating | src/main/java/org/jiumao/nist/random/LinearComplexity.java:54-69 | after a round C generates the block from L up to N_ + 1, and B_ still generates up to m and fails at m |
| LinearComplexityTest.StepZeroPrefix | src/main/java/org/jiumao/nist/random/LinearComplexity.java:54-69 | L stays 0 exactly while only zeros have been read |
| LinearComplexityTest.StepKeepsInvariant | src/main/java/org/jiumao/nist/random/LinearComplexity.java:49-72 | a round that does not throw keeps the Berlekamp-Massey invariant: shape, generation and the zero-prefix property |
| LinearComplexityTest.RunKeepsInvariant | src/main/java/org/jiumao/nist/random/LinearComplexity.java:41-72 | every run of rounds that does not throw ends in the invariant |
| LinearComplexityTest.RunFailsOnLoneFinalOne | src/main/java/org/jiumao/nist/random/LinearComplexity.java:49-72 | with arrays of M entries the loop over a block throws exactly at the last round of the block 0 ... 0 1 |
| LinearComplexityTest.LastRoundFails | src/main/java/org/jiumao/nist/random/LinearComplexity.java:49-72 | the last round throws exactly on 0 ... 0 1 |
| LinearComplexityTest.CorrectedRunSucceeds | src/main/java/org/jiumao/nist/random/LinearComplexity.java:28-72 | with arrays of M + 1 entries no round throws and the invariant holds throughout |
| LinearComplexityTest.Complexity | src/main/java/org/jiumao/nist/random/LinearComplexity.java:41-72 | the L the corrected loop finds lies in [0, M] and is 0 exactly for a block of zeros |
| LinearComplexityTest.ComplexityGenerates | src/main/java/org/jiumao/nist/random/LinearComplexity.java:41-72 | the register of length L found by the corrected loop has C[0] = 1, degree at most L, and reproduces every bit of the block from the L bits before it |
| LinearComplexityTest.AsWrittenAgrees | src/main/java/org/jiumao/nist/random/LinearComplexity.java:28-72 | wherever the as-written loop does not throw, its arrays are the corrected ones without their last, zero, entry, with the same L and m |
| LinearComplexityTest.AsWrittenComplexity | src/main/java/org/jiumao/nist/random/LinearComplexity.java:28-72 | the as-written loop throws exactly on 0 ... 0 1 and otherwise finds the corrected L |
| LinearComplexityTest.LoneFinalOneThrows | src/main/java/org/jiumao/nist/random/LinearComplexity.java:59-61 | the block 0 0 1 of length 3 throws |
| LinearComplexityTest.Class | src/main/java/org/jiumao/nist/random/LinearComplexity.java:84-97 | the if-chain files T_ under one of the seven classes |
| LinearComplexityTest.ClassIsInterval | src/main/java/org/jiumao/nist/random/LinearComplexity.java:84-97 | the classes are (-inf, -2.5], (-2.5, -1.5], ..., (1.5, 2.5] and (2.5, +inf); -inf goes to class 0, and +inf and NaN to class 6 |
| LinearComplexityTest.Tally | src/main/java/org/jiumao/nist/random/LinearComplexity.java:32-33 | nu has K + 1 = 7 entries, entry c the number of blocks of class c |
| LinearComplexityTest.TallyTotal | src/main/java/org/jiumao/nist/random/LinearComplexity.java:34-98 | every block lands in exactly one class, so nu adds up to N |
| LinearComplexityTest.Block | src/main/java/org/jiumao/nist/random/LinearComplexity.java:50-52 | block ii is bits ii M to (ii + 1) M - 1 of the stream, M bits long |
| LinearComplexityTest.Classes | src/main/java/org/jiumao/nist/random/LinearComplexity.java:34-98 | one class, at most K, per block |
| LinearComplexityTest.Frequencies | src/main/java/org/jiumao/nist/random/LinearComplexity.java:30-98 | nu has seven entries adding up to N = n / M |
| LinearComplexityTest.IsRandom | src/main/java/org/jiumao/nist/random/LinearComplexity.java:22-105 | with the arrays one entry longer: a negative M throws NegativeArraySize, M = 0 throws Arithmetic, and otherwise only pValue changes, it is computed from the class frequencies of the N blocks, and the returned verdict is pValue < alpha |
| LinearComplexityTest.HighPValueRejected | src/main/java/org/jiumao/nist/random/LinearComplexity.java:104 | the verdict is inverted: a p-value at or above alpha returns false |
| LinearComplexityTest.IsRandomAsWritten | src/main/java/org/jiumao/nist/random/LinearComplexity.java:22-30 | for M <= 0 the code as written throws as the corrected one does |
| LinearComplexityTest.AsWrittenThrows | src/main/java/org/jiumao/nist/random/LinearComplexity.java:28-72 | for M > 0 the code as written throws exactly when some block is 0 ... 0 1, and otherwise returns what the corrected code does |
| LinearComplexityTest.AsWrittenThrowsOnZeroOne | src/main/java/org/jiumao/nist/random/LinearComplexity.java:59-61 | with M = 2 the stream 0 1 throws ArrayIndexOutOfBounds |
| LinearComplexityTest.CorrectionOnlyRemovesThrow | src/main/java/org/jiumao/nist/random/LinearComplexity.java:28-105 | where the as-written code returns, the corrected code returns the same; where it throws for M > 0, the corrected code returns |
| LinearComplexityTest.StartInvariant | src/main/java/org/jiumao/nist/random/LinearComplexity.java:35-45 | the starting register C = B_ = 1, 0, ..., 0 with L = 0 and m = -1 already satisfies the Berlekamp-Massey invariant |
| LinearComplexityTest.NewDiscrepancy | src/main/java/org/jiumao/nist/random/LinearComplexity.java:54-63 | after a correction by the shifted B_, C has no discrepancy from the new L up to N_ inclusive |
| LinearComplexityTest.RunOkBeforeLast | src/main/java/org/jiumao/nist/random/LinearComplexity.java:47-72 | with arrays of M entries every round before the last of a block is free of the out-of-bounds write |
| LinearComplexityTest.StepAgrees | src/main/java/org/jiumao/nist/random/LinearComplexity.java:49-72 | a round on the M-entry arrays that succeeds also succeeds on the M + 1 entry arrays, and the results still agree entry by entry |
| LempelZivTest.ToLong | src/main/java/org/jiumao/nist/random/LempelZivCompression.java:80 | a long holds the two's complement reading of the low 64 bits, within [-2^63, 2^63) |
| LempelZivTest.OrOne | src/main/java/org/jiumao/nist/random/LempelZivCompression.java:64-68 | x \| 1 is odd and is x or x + 1 |
| LempelZivTest.Equals | src/main/java/org/jiumao/nist/random/LempelZivCompression.java:133-157 | Word.equals holds exactly for the same length and equal patterns of the same class |
| LempelZivTest.ToWord | src/main/java/org/jiumao/nist/random/LempelZivCompression.java:59-61 | toWord() keeps the length, the pattern's value and whether it is a long or a BigInteger |
| LempelZivTest.Or | src/main/java/org/jiumao/nist/random/LempelZivCompression.java:64-68 | or(false) changes nothing; or(true) sets the lowest bit; the length and the strategy never change |
| LempelZivTest.TimesTwo | src/main/java/org/jiumao/nist/random/LempelZivCompression.java:71-109 | timesTwo() adds one to the length; a long accumulator past length 62 becomes a BigInteger, and a BigInteger doubles exactly |
| LempelZivTest.FreshAccumulatorIgnoresBit | src/main/java/org/jiumao/nist/random/LempelZivCompression.java:25-29 | a restarted accumulator holds pattern 1, so or(bit) leaves it unchanged whatever the bit |
| LempelZivTest.SwitchKeepsValue | src/main/java/org/jiumao/nist/random/LempelZivCompression.java:100-105 | the switch to BigInteger keeps the numeric value of the doubling |
| LempelZivTest.Encode | src/main/java/org/jiumao/nist/random/LempelZivCompression.java:25-29 | the accumulator built for a key has the key's length |
| LempelZivTest.EncodeValue | src/main/java/org/jiumao/nist/random/LempelZivCompression.java:25-29 | the accumulator of a key is the key read in binary behind a leading one, a long up to length 63 (the leading one on the sign bit at 63) and a BigInteger after that |
| LempelZivTest.EncodedValueStep | src/main/java/org/jiumao/nist/random/LempelZivCompression.java:95-109 | each bit doubles the value and adds the bit; the step from length 62 to 63 also wraps by 2^64 |
| LempelZivTest.LongStep | src/main/java/org/jiumao/nist/random/LempelZivCompression.java:95-108 | below length 62 a long doubles and adds the bit without wrapping |
| LempelZivTest.LongWrapStep | src/main/java/org/jiumao/nist/random/LempelZivCompression.java:95-108 | the doubling at length 62 wraps once to a negative long |
| LempelZivTest.SwitchStep | src/main/java/org/jiumao/nist/random/LempelZivCompression.java:64-75 | from length 63 the doubling goes to a BigInteger and adds the bit exactly |
| LempelZivTest.BigStep | src/main/java/org/jiumao/nist/random/LempelZivCompression.java:64-75 | a BigInteger doubles and adds the bit exactly |
| LempelZivTest.LongDoubling | src/main/java/org/jiumao/nist/random/LempelZivCompression.java:106 | a shift that stays below 2^63 keeps its value |
| LempelZivTest.LongOverflow | src/main/java/org/jiumao/nist/random/LempelZivCompression.java:106 | a shift into [2^63, 2^64) wraps to a negative long |
| LempelZivTest.EncodeInjective | src/main/java/org/jiumao/nist/random/LempelZivCompression.java:112-157 | two keys give equal words exactly when they are the same key, whatever their lengths |
| LempelZivTest.Scan | src/main/java/org/jiumao/nist/random/LempelZivCompression.java:24-30 | the loop adds at most one word per bit |
| LempelZivTest.Keys | src/main/java/org/jiumao/nist/random/LempelZivCompression.java:24-30 | the reference parse on keys adds at most one key per bit |
| LempelZivTest.ScanFollowsKeys | src/main/java/org/jiumao/nist/random/LempelZivCompression.java:24-30 | the words the loop collects are exactly the words of the distinct keys, as many as the keys, and the accumulator is that of the key read so far |
| LempelZivTest.KeyStep | src/main/java/org/jiumao/nist/random/LempelZivCompression.java:29 | words.add(w) succeeds exactly for a key not seen before, and then adds exactly one word |
| LempelZivTest.FirstBitIgnored | src/main/java/org/jiumao/nist/random/LempelZivCompression.java:25-29 | the very first bit of the stream never changes the outcome |
| LempelZivTest.ScanCongruent | src/main/java/org/jiumao/nist/random/LempelZivCompression.java:26-30 | the loop reads its input one bit at a time from the front |
| LempelZivTest.AsWrittenMergesPhrases | src/main/java/org/jiumao/nist/random/LempelZivCompression.java:25-29 | the stream 0 1 parses as the two phrases "0" and "1", but the loop counts one word |
| LempelZivTest.Phrases | src/main/java/org/jiumao/nist/random/LempelZivCompression.java:24-30 | the reference phrase parse adds at most one phrase per bit |
| LempelZivTest.ScanIntended | src/main/java/org/jiumao/nist/random/LempelZivCompression.java:24-30 | the loop with timesTwo() before or(bit) adds at most one word per bit |
| LempelZivTest.IntendedCountsPhrases | src/main/java/org/jiumao/nist/random/LempelZivCompression.java:24-30 | the corrected loop collects exactly one word per distinct phrase of the parse, and its accumulator encodes the phrase read so far |
| LempelZivTest.PValueDoublesErfc | src/main/java/org/jiumao/nist/random/LempelZivCompression.java:31-34 | the p-value is erfc((69586.25 - words) / sqrt(2 sqrt(448718.70))) divided by 0.5, that is doubled |
| FrequencyTest.New | src/main/java/org/jiumao/nist/random/Frequency.java:70-91 | both constructors start from the base state and zero sum and sumDiv_n |
| FrequencyTest.Finalize | src/main/java/org/jiumao/nist/random/Frequency.java:98-103 | finalize runs the base finalize, so alpha goes back to 0, and zeroes sum and sumDiv_n |
| FrequencyTest.Initialize | src/main/java/org/jiumao/nist/random/Frequency.java:165-170 | Initialize resets the base result but keeps alpha, and zeroes sum and sumDiv_n |
| FrequencyTest.Kind | src/main/java/org/jiumao/nist/random/Frequency.java:179-182 | GetType names the Frequency kind, which owns slot 0 of the suite |
| BlockFrequencyTest.Finalize | src/main/java/org/jiumao/nist/random/BlockFrequency.java:98-105 | finalize calls the base Initialize, not the base finalize: alpha and the MathematicalFunctions reference survive while the block results are zeroed |
| BlockFrequencyTest.Initialize | src/main/java/org/jiumao/nist/random/BlockFrequency.java:176-179 | Initialize resets the base result only; chiSquared, blockNumber and bitsDiscarded keep the values of the last run |
| BlockFrequencyTest.FloorDiv | src/main/java/org/jiumao/nist/random/BlockFrequency.java:139 | (int) Math.floor(n / M) taken in doubles is the integer quotient for a positive M |
| BlockFrequencyTest.FloorOfQuotient | src/main/java/org/jiumao/nist/random/BlockFrequency.java:139 | the floor of the real quotient n / M is the integer quotient |
| BlockFrequencyTest.BlockOnes | src/main/java/org/jiumao/nist/random/BlockFrequency.java:143-146 | the ones summed over one block never exceed M |
| BlockFrequencyTest.Excess | src/main/java/org/jiumao/nist/random/BlockFrequency.java:147-149 | the integer deviation (2 ones - M)^2 of a block is at most M^2 |
| BlockFrequencyTest.ExcessSumBound | src/main/java/org/jiumao/nist/random/BlockFrequency.java:141-150 | the summed deviations of count blocks are at most count times M^2 |
| BlockFrequencyTest.ChiSquaredBounds | src/main/java/org/jiumao/nist/random/BlockFrequency.java:139-151 | 0 <= chi-squared <= M times the number of blocks |
| BlockFrequencyTest.BalancedExcess | src/main/java/org/jiumao/nist/random/BlockFrequency.java:147-149 | a block holding exactly M / 2 ones has no deviation |
| BlockFrequencyTest.Kind | src/main/java/org/jiumao/nist/random/BlockFrequency.java:186-189 | GetType names the BlockFrequency kind, slot 1 of the suite |
| RunsTest.New | src/main/java/org/jiumao/nist/random/Runs.java:73-96 | both constructors start from the base state and zero pi, totalNumberRuns and argument |
| RunsTest.Finalize | src/main/java/org/jiumao/nist/random/Runs.java:103-108 | finalize zeroes pi, totalNumberRuns and argument and leaves the base state as it was |
| RunsTest.Initialize | src/main/java/org/jiumao/nist/random/Runs.java:187-193 | Initialize zeroes the three results and resets the base result |
| RunsTest.Kind | src/main/java/org/jiumao/nist/random/Runs.java:202-205 | GetType names the Runs kind, slot 2 of the suite |
| RunsTest.Changes | src/main/java/org/jiumao/nist/random/Runs.java:154-159 | a stream of n bits has at most n - 1 places where a bit differs from the next |
| RunsTest.RunCount | src/main/java/org/jiumao/nist/random/Runs.java:154-163 | a non-empty stream has between 1 and n runs |
| RunsTest.ChangesOfCons | src/main/java/org/jiumao/nist/random/Runs.java:154-159 | the changes of a stream are those of its tail plus one when its first two bits differ |
| RunsTest.Proportion | src/main/java/org/jiumao/nist/random/Runs.java:150-153 | pi = ones / n is a finite number in [0, 1] |
| RunsTest.ProportionExtremes | src/main/java/org/jiumao/nist/random/Runs.java:153 | ones / n is 0 exactly when there are no ones and 1 exactly when every bit is one |
| RunsTest.Measured | src/main/java/org/jiumao/nist/random/Runs.java:150-166 | the statistic step records the run count and pi = ones / n |
| RunsTest.OneRunPassesAsWritten | src/main/java/org/jiumao/nist/random/Runs.java:164-179 | as written, a stream with a single run gets a NaN p-value and passes with no error |
| RunsTest.ZeroProductArgument | src/main/java/org/jiumao/nist/random/Runs.java:164-166 | with pi (1 - pi) = 0 the argument is a division by zero and never a finite number |
| RunsTest.NaNJudged | src/main/java/org/jiumao/nist/random/Runs.java:168-178 | a NaN p-value is not below alpha and not out of range, so it passes and adds no error |
| RunsTest.ExtremeFailsPrerequisite | src/main/java/org/jiumao/nist/random/Runs.java:150-153 | from 16 bits on, a stream with no ones or only ones fails the prerequisite of section 2.3.4 of NIST SP 800-22 |
| CumulativeSumsTest.New | src/main/java/org/jiumao/nist/random/CumulativeSumForward.java:60-77 | both constructors start from the base state, zero cuSum and fix the reading direction |
| CumulativeSumsTest.MaxExcursion | src/main/java/org/jiumao/nist/random/CumulativeSumForward.java:119-124 | cuSum starts at 1 and never drops below it |
| CumulativeSumsTest.ExcursionRange | src/main/java/org/jiumao/nist/random/CumulativeSumForward.java:119-124 | for a non-empty walk 1 <= cuSum <= n |
| CumulativeSumsTest.ConstantExcursion | src/main/java/org/jiumao/nist/random/CumulativeSumForward.java:119-124 | a constant stream walks straight away from zero, so cuSum = n |
| CumulativeSumsTest.EndpointBound | src/main/java/org/jiumao/nist/random/CumulativeSumForward.java:119-124 | cuSum is at least the distance of the final sum from zero |
| CumulativeSumsTest.OrderedCoversEndpoint | src/main/java/org/jiumao/nist/random/CumulativeSumReverse.java:117-124 | in either reading direction cuSum is at least abs(ones - zeros) |
| CumulativeSumsTest.Kind | src/main/java/org/jiumao/nist/random/CumulativeSumForward.java:167-170 | GetType names CumulativeSumForward (slot 4) or CumulativeSumReverse (slot 5) by direction |
| LongestRunTest.TrailingOnes | src/main/java/org/jiumao/nist/random/LongestRunOfOnes.java:243-249 | the run counter never exceeds the bits read |
| LongestRunTest.TrailingOnesAreOnes | src/main/java/org/jiumao/nist/random/LongestRunOfOnes.java:243-249 | the run counter counts the ones since the last zero, and a zero precedes them unless they fill the block |
| LongestRunTest.TrailingOnesIsMaximal | src/main/java/org/jiumao/nist/random/LongestRunOfOnes.java:243-249 | no longer block of ones ends where the reading stopped |
| LongestRunTest.LongestRun | src/main/java/org/jiumao/nist/random/LongestRunOfOnes.java:241-250 | v_n_obs never exceeds the block length |
| LongestRunTest.Block | src/main/java/org/jiumao/nist/random/LongestRunOfOnes.java:244 | block i holds the M bits from i * M on |
| LongestRunTest.Tally | src/main/java/org/jiumao/nist/random/LongestRunOfOnes.java:252-262 | the three updates of one block keep one counter per class |
| LongestRunTest.Counts | src/main/java/org/jiumao/nist/random/LongestRunOfOnes.java:240-263 | the counts of the first blocks have one entry per class |
| LongestRunTest.Assign | src/main/java/org/jiumao/nist/random/LongestRunOfOnes.java:283-284 | the first K + 1 entries of assignment become the counts and the rest keep what they held |
| LongestRunTest.Kind | src/main/java/org/jiumao/nist/random/LongestRunOfOnes.java:312-315 | GetType names the LongestRunOfOnes kind, slot 3 of the suite |
| RankTest.Eliminate | src/main/java/org/jiumao/nist/random/Rank.java:136-153 | the elimination leaves the pivot row and the rows on the other side of it alone, and is a no-op for a flag other than 0 and 1 |
| RankTest.FirstBelow | src/main/java/org/jiumao/nist/random/Rank.java:194-200 | flag 0 finds the first row after i with a 1 in column i, or reports that none has one |
| RankTest.NearestAbove | src/main/java/org/jiumao/nist/random/Rank.java:201-207 | flag 1 finds the nearest row above i with a 1 in column i, or reports that none has one |
| RankTest.ZeroRows | src/main/java/org/jiumao/nist/random/Rank.java:225-235 | no row is counted exactly when every row holds a 1, and every row exactly when the matrix is zero |
| RankTest.PivotKeepsZero | src/main/java/org/jiumao/nist/random/Rank.java:254-268 | on a zero matrix a pivot step changes nothing |
| RankTest.ForwardKeepsZero | src/main/java/org/jiumao/nist/random/Rank.java:254-260 | the forward loop leaves a zero matrix unchanged |
| RankTest.BackwardKeepsZero | src/main/java/org/jiumao/nist/random/Rank.java:261-268 | the backward loop leaves a zero matrix unchanged |
| RankTest.PivotKeepsIdentity | src/main/java/org/jiumao/nist/random/Rank.java:254-268 | on the identity a pivot step changes nothing |
| RankTest.ForwardKeepsIdentity | src/main/java/org/jiumao/nist/random/Rank.java:254-260 | the forward loop leaves the identity unchanged |
| RankTest.BackwardKeepsIdentity | src/main/java/org/jiumao/nist/random/Rank.java:261-268 | the backward loop leaves the identity unchanged |
| RankTest.RankOf | src/main/java/org/jiumao/nist/random/Rank.java:395-396 | the rank of each 32 x 32 matrix is between 0 and 32 |
| RankTest.Ranks | src/main/java/org/jiumao/nist/random/Rank.java:394-401 | the loop computes the rank of matrix k in stream order, for every k below the matrix count |
| RankTest.CountOf | src/main/java/org/jiumao/nist/random/Rank.java:397-400 | a tally never exceeds the number of matrices |
| RankTest.CountOfIsCardinality | src/main/java/org/jiumao/nist/random/Rank.java:397-400 | a tally is the number of positions that hold its rank |
| RankTest.TallyCountsRank | src/main/java/org/jiumao/nist/random/Rank.java:394-401 | f32 and f31 count exactly the matrices of rank 32 and 31 |
| RankTest.ListedIsRanked | src/main/java/org/jiumao/nist/random/Rank.java:394-401 | the positions of the rank list that hold a rank are the matrices of that rank |
| RankTest.Measure | src/main/java/org/jiumao/nist/random/Rank.java:371-408 | N = floor(n / 1024), f32 and f31 count ranks 32 and 31, and f30 = N - f32 - f31 |
| RankTest.Kind | src/main/java/org/jiumao/nist/random/Rank.java:457-460 | GetType names the Rank kind, slot 6 of the suite |
| UniversalTest.Process | src/main/java/org/jiumao/nist/random/Universal.java:246-263 | after blocks 1 .. i the table has 2^L entries and one distance has been recorded per block past the first Q |
| UniversalTest.Distances | src/main/java/org/jiumao/nist/random/Universal.java:255-263 | one distance is summed per test block |
| UniversalTest.ThresholdsIncrease | src/main/java/org/jiumao/nist/random/Universal.java:201-222 | the length thresholds increase, so a longer stream never selects a shorter block |
| UniversalTest.ConstantBlocksAgree | src/main/java/org/jiumao/nist/random/Universal.java:249-253 | in a constant stream every block reads as the block before it |
| UniversalTest.Kind | src/main/java/org/jiumao/nist/random/Universal.java:306-309 | GetType names the Universal kind, slot 7 of the suite |
| DiscreteFourierTransformTest.Store | src/main/java/org/jiumao/nist/random/DiscreteFourierTransform.java:529-538 | a found factor is added to ifac: a 2 goes to the front by shifting the others up, any other factor to the end |
| DiscreteFourierTransformTest.TrialFails | src/main/java/org/jiumao/nist/random/DiscreteFourierTransform.java:519-527 | a trial divisor that does not divide moves on to the next, which still does not pass the remaining quotient |
| DiscreteFourierTransformTest.TrialDivides | src/main/java/org/jiumao/nist/random/DiscreteFourierTransform.java:528-538 | a trial divisor that divides is stored and divided out, and the loop invariant holds for the quotient |
| DiscreteFourierTransformTest.StoreProduct | src/main/java/org/jiumao/nist/random/DiscreteFourierTransform.java:529-531 | storing a factor and dividing it out keeps the product of the factors times the quotient equal to n |
| DiscreteFourierTransformTest.StoreShape | src/main/java/org/jiumao/nist/random/DiscreteFourierTransform.java:532-537 | storing keeps at most one 2 in the factor list, at its front |
| DiscreteFourierTransformTest.QuotientSieved | src/main/java/org/jiumao/nist/random/DiscreteFourierTransform.java:531 | the quotient has no divisor among the trials already rejected |
| DiscreteFourierTransformTest.ThreesFactorize | src/main/java/org/jiumao/nist/random/DiscreteFourierTransform.java:518-540 | a power 3^e adds e factors 3 to the list |
| DiscreteFourierTransformTest.Kind | src/main/java/org/jiumao/nist/random/DiscreteFourierTransform.java:820-823 | GetType names the DiscreteFourierTransform kind, slot 10 of the suite |
| ApproximateEntropyTest.EntropyOfOneEntry | src/main/java/org/jiumao/nist/random/ApproximateEntropy.java:173-178 | over a single occupied cell the entropy sum is that cell's term |
| ApproximateEntropyTest.EntropyOfZeros | src/main/java/org/jiumao/nist/random/ApproximateEntropy.java:173-178 | empty cells contribute nothing to the entropy sum |
| ApproximateEntropyTest.WholeTerm | src/main/java/org/jiumao/nist/random/ApproximateEntropy.java:173-179 | a cell holding all n windows contributes n log(n / n) / n = 0 |
| ApproximateEntropyTest.ZeroPhisScore | src/main/java/org/jiumao/nist/random/ApproximateEntropy.java:185-188 | ApEn is 0 when both phis are 0, and chi-squared is then 2 n (log 2 - 0), its largest value |
| ApproximateEntropyTest.Kind | src/main/java/org/jiumao/nist/random/ApproximateEntropy.java:227-230 | GetType names the ApproximateEntropy kind, slot 8 of the suite |
| SerialTest.Kind | src/main/java/org/jiumao/nist/random/Serial.java:250-253 | GetType names the Serial kind, slot 9 of the suite |
| OverlappingTest.AllInLastSlot | src/main/java/org/jiumao/nist/random/OverlappingTemplateMatchings.java:57-60 | blocks with K or more matches all land in the last class |
| LempelZivTest.KeyPresent | src/main/java/org/jiumao/nist/random/LempelZivCompression.java:28-29 | a word is in the set exactly when the phrase it encodes was added before |
| LempelZivTest.WordsOfAdd | src/main/java/org/jiumao/nist/random/LempelZivCompression.java:29 | adding a phrase adds exactly its word to the set |
| CryptoStreams.Wrap | src/main/java/org/jiumao/nist/CryptoRandomStream/ByteCryptoRandomStream.java:380 | ByteBuffer.wrap(array, off, len).slice() succeeds exactly on a non-null array with the extent inside it; a null array throws NullPointerException, a bad extent IndexOutOfBoundsException |
| CryptoStreams.Window | src/main/java/org/jiumao/nist/CryptoRandomStream/BaseCryptoRandomStream.java:405 | the buffer shows the backing array from its offset on, limit bytes long |
| CryptoStreams.Get | src/main/java/org/jiumao/nist/CryptoRandomStream/BaseCryptoRandomStream.java:414-417 | get(i) succeeds exactly for 0 <= i < limit and reads the backing array; otherwise IndexOutOfBoundsException |
| CryptoStreams.Put | src/main/java/org/jiumao/nist/CryptoRandomStream/BaseCryptoRandomStream.java:353-356 | put(i, v) succeeds exactly for 0 <= i < limit, writes v through to the backing array and changes no other byte |
| CryptoStreams.SetReadsBack | src/main/java/org/jiumao/nist/CryptoRandomStream/BaseCryptoRandomStream.java:338-345 | a bit set at position p reads back at p |
| CryptoStreams.SetKeepsOther | src/main/java/org/jiumao/nist/CryptoRandomStream/BaseCryptoRandomStream.java:338-345 | setting bit p leaves what every other position reads |
| CryptoStreams.Bits | src/main/java/org/jiumao/nist/CryptoRandomStream/BaseCryptoRandomStream.java:399-406 | the first n bits of a stream are what GetBitPosition returns for 0 .. n - 1 |
| CryptoStreams.GetBitIgnoresCursor | src/main/java/org/jiumao/nist/CryptoRandomStream/BaseCryptoRandomStream.java:399-406 | GetBitPosition does not depend on the cursor |
| CryptoStreams.ForwardReads | src/main/java/org/jiumao/nist/CryptoRandomStream/BaseCryptoRandomStream.java:257-263 | m forward reads from the cursor return the next m bits in order and move the cursor m places on |
| CryptoStreams.ReverseReads | src/main/java/org/jiumao/nist/CryptoRandomStream/BaseCryptoRandomStream.java:270-276 | m reverse reads return the bit at the cursor and the ones before it, in descending order, and move the cursor m places back |
| CryptoStreams.ReadsAfterMove | src/main/java/org/jiumao/nist/CryptoRandomStream/BaseCryptoRandomStream.java:120-123 | SetBitPosition leaves what every position reads |
| CryptoStreams.FillWindow | src/main/java/org/jiumao/nist/CryptoRandomStream/BaseCryptoRandomStream.java:301-306 | FillUC writes the value into every byte of the window and changes nothing outside it |
| CryptoStreams.CopyFrom | src/main/java/org/jiumao/nist/CryptoRandomStream/BaseCryptoRandomStream.java:669-671 | the copy loop changes only byte values, never the heap's shape |
| CryptoStreams.CopyFromCopies | src/main/java/org/jiumao/nist/CryptoRandomStream/BaseCryptoRandomStream.java:663-677 | on separate buffers with room enough the copy loop succeeds, the target's window then holds the source's bytes, and nothing else changes |
| CryptoStreams.CopyFromSucceeds | src/main/java/org/jiumao/nist/CryptoRandomStream/BaseCryptoRandomStream.java:663-677 | the copy loop never throws when the target is at least as long as the source |
| ByteStreams.Alloc | src/main/java/org/jiumao/nist/CryptoRandomStream/ByteCryptoRandomStream.java:94 | new byte[len] succeeds exactly for len >= 0 with a fresh zeroed array added to the heap; a negative length throws NegativeArraySizeException |
| ByteStreams.AllocHolding | src/main/java/org/jiumao/nist/CryptoRandomStream/StringCryptoRandomStream.java:56-65 | a parser's fresh array owned by a new stream: the old heap is kept and bit p of the stream is bit p % 8 of byte p / 8 |
| HexText.HexDigit | src/main/java/org/jiumao/nist/CryptoRandomStream/DefaultCryptoRandomStream.java:382-432 | the digit written for a nibble is one of 0-9 and a-f |
| HexText.NibbleOfDigit | src/main/java/org/jiumao/nist/CryptoRandomStream/DefaultCryptoRandomStream.java:382-432 | the digit switch reads every written digit back as its nibble |
| HexText.NibbleByte | src/main/java/org/jiumao/nist/CryptoRandomStream/DefaultCryptoRandomStream.java:408-432 | the value a second-digit case ORs in is below 16 |
| HexText.NibbleRoundTrip | src/main/java/org/jiumao/nist/CryptoRandomStream/DefaultCryptoRandomStream.java:382-432 | a nibble turned into its byte and back is unchanged |
| HexText.ByteNibbleRoundTrip | src/main/java/org/jiumao/nist/CryptoRandomStream/DefaultCryptoRandomStream.java:382-432 | a byte below 16 turned into a nibble and back is unchanged |
| HexText.JoinSplit | src/main/java/org/jiumao/nist/CryptoRandomStream/DefaultCryptoRandomStream.java:382-432 | a byte split into its high and low nibbles and joined again is unchanged |
| HexText.SplitJoin | src/main/java/org/jiumao/nist/CryptoRandomStream/DefaultCryptoRandomStream.java:382-432 | two nibbles joined into a byte and split again are unchanged |
| HexText.HexEncode | src/main/java/org/jiumao/nist/CryptoRandomStream/DefaultCryptoRandomStream.java:360-440 | the inverse of the parser writes two digits per byte |
| HexText.EncodedIsHex | src/main/java/org/jiumao/nist/CryptoRandomStream/DefaultCryptoRandomStream.java:360-440 | the encoding consists of hex digits only |
| HexText.PairOfEncoded | src/main/java/org/jiumao/nist/CryptoRandomStream/DefaultCryptoRandomStream.java:382-432 | the digit pair written for byte i parses back to byte i |
| StringStreams.LeadingBlanks | src/main/java/org/jiumao/nist/CryptoRandomStream/StringCryptoRandomStream.java:53 | trim removes exactly the blanks that open the text |
| StringStreams.TrailingBlanks | src/main/java/org/jiumao/nist/CryptoRandomStream/StringCryptoRandomStream.java:53 | trim removes exactly the blanks that close the text |
| StringStreams.OneCodeBits | src/main/java/org/jiumao/nist/CryptoRandomStream/StringCryptoRandomStream.java:58 | the character code of '1' stored as a byte has bit 0 set and bit 1 clear |
| StringStreams.Pack | src/main/java/org/jiumao/nist/CryptoRandomStream/StringCryptoRandomStream.java:56-62 | the corrected packing: one bit per character, eight to a byte, bit p of the text in bit p % 8 of byte p / 8 |
| StringStreams.ReadsText | src/main/java/org/jiumao/nist/CryptoRandomStream/StringCryptoRandomStream.java:50-68 | a stream whose first bits spell the text reads it back going forward |
| TestKinds.Ordinal | src/main/java/org/jiumao/nist/Base/RandomTestSuite.java:60-64 | every kind has an ordinal of at most 13, and the suite's arrays have one slot per kind below NumberOfTests |
| TestKinds.KindAt | src/main/java/org/jiumao/nist/Base/RandomTestSuite.java:281-299 | the kind stored in slot i has ordinal i and is registrable |
| TestKinds.OrdinalIsPosition | src/main/java/org/jiumao/nist/Base/RandomTestSuite.java:902 | values() lists each kind at its ordinal |
| TestKinds.OrdinalInjective | src/main/java/org/jiumao/nist/Base/RandomTestSuite.java:191 | two kinds with the same ordinal are the same, so each kind has its own slot |
| BitWalk.Step | src/main/java/org/jiumao/nist/random/Frequency.java:144 | 2 * bit - 1 is +1 for a one and -1 for a zero |
| BitWalk.Ones | src/main/java/org/jiumao/nist/random/Runs.java:151-152 | the ones of a stream never exceed its length |
| BitWalk.WalkIsOnesMinusZeros | src/main/java/org/jiumao/nist/random/Frequency.java:141-145 | the ±1 walk ends at 2 * ones - n |
| BitWalk.WalkBounds | src/main/java/org/jiumao/nist/random/Frequency.java:141-145 | the walk ends within ±n at a point of the parity of n |
| BitWalk.OnesOfConstant | src/main/java/org/jiumao/nist/random/Runs.java:151-152 | a constant stream of bit b has b * n ones |
| BitWalk.WalkOfConstant | src/main/java/org/jiumao/nist/random/Frequency.java:141-145 | all ones walk to n, all zeros to -n |
| BitWalk.BalancedWalk | src/main/java/org/jiumao/nist/random/Frequency.java:141-145 | as many ones as zeros walk back to 0 |
| BitWalk.OnesAppend | src/main/java/org/jiumao/nist/random/Runs.java:151-152 | the ones of two streams joined add up |
| BitWalk.PrefixBound | src/main/java/org/jiumao/nist/random/CumulativeSumForward.java:121-122 | the partial sum after i + 1 steps lies within ±(i + 1) |
| BitWalk.Reverse | src/main/java/org/jiumao/nist/random/CumulativeSumReverse.java:121-122 | the reverse reading visits bit n - 1 - i at step i |
| BitWalk.OnesOfReverse | src/main/java/org/jiumao/nist/random/CumulativeSumReverse.java:121-122 | read back to front, a stream keeps its ones and its walk's end point |
| BitWalk.WordBound | src/main/java/org/jiumao/nist/random/Universal.java:249-251 | an L-bit block read as a number is below 2^L |
| BitWalk.WordInjective | src/main/java/org/jiumao/nist/random/Universal.java:249-251 | two blocks read as the same number exactly when they hold the same bits |
| BitWalk.WholeWordInjective | src/main/java/org/jiumao/nist/random/Universal.java:249-251 | two sequences of equal length read as the same number exactly when they are equal |
| MathFunctions.TwoTo | src/main/java/org/jiumao/nist/random/Rank.java:382-384 | Math.pow(2, e) is exactly 1/2 for e = -1 and a finite number of at least 1 for 0 <= e < 1024 |
| MathFunctions.HornerStep | src/main/java/org/jiumao/nist/Base/MathematicalFunctions.java:308-322 | one Horner step of polevl appends the next coefficient to the polynomial |
| BaseRandom.SetAlpha | src/main/java/org/jiumao/nist/Base/BaseRandom.java:175-178 | setAlpha sets alpha and nothing else |
| BaseRandom.SetPValue | src/main/java/org/jiumao/nist/Base/BaseRandom.java:252-254 | setpValue sets the p-value and nothing else |
| BaseRandom.SetBlockLength | src/main/java/org/jiumao/nist/Base/BaseRandom.java:263-266 | SetBlockLength sets the block length and nothing else |
| BaseRandom.StreamBits | src/main/java/org/jiumao/nist/CryptoRandomStream/BaseCryptoRandomStream.java:399-406 | the bits a test reads are GetBitPosition(i) for every i below GetBitLength |
| TestSuite.Construct | src/main/java/org/jiumao/nist/Base/RandomTestSuite.java:202-275 | each new test is of the requested kind and a fresh object of the suite |
| TestSuite.Emptied | src/main/java/org/jiumao/nist/Base/RandomTestSuite.java:587-600 | every slot is emptied, a flag drops with its test, and nothing else changes |
| TestSuite.Put | src/main/java/org/jiumao/nist/Base/RandomTestSuite.java:188-195 | storing a test changes its slot and its selfCreatedTest flag only |
| TestSuite.OccupiedAfterPut | src/main/java/org/jiumao/nist/Base/RandomTestSuite.java:188-195 | filling an empty slot adds one registered test, emptying a full one removes one, and nothing else changes the number |
| TestSuite.TestLoop | src/main/java/org/jiumao/nist/Base/RandomTestSuite.java:819-833 | TestRandom's loop changes only the verdict, the error and the error count |
| TestSuite.Reported | src/main/java/org/jiumao/nist/Base/RandomTestSuite.java:822-830 | the errors merged are those of tests that end non-random with an error |
| TestSuite.TestLoopStep | src/main/java/org/jiumao/nist/Base/RandomTestSuite.java:819-833 | one slot merges its error and counts it exactly when it holds a test that fails with an error |
| TestSuite.MergeStep | src/main/java/org/jiumao/nist/Base/RandomTestSuite.java:822-830 | merging one more reported error keeps the error equal to the summary of all reported ones |
| TestSuite.TestLoopMergesErrors | src/main/java/org/jiumao/nist/Base/RandomTestSuite.java:819-833 | after the loop the error summarises the earlier error and every reported error, and each one is counted |
| TestSuite.ShortLoop | src/main/java/org/jiumao/nist/Base/RandomTestSuite.java:791-803 | IsRandom's loop changes only the verdict, nonRandomTest, errorTest and numberOfErrors |
| TestSuite.ShortLoopStep | src/main/java/org/jiumao/nist/Base/RandomTestSuite.java:793-802 | after one more slot the verdict is the previous verdict and that slot's result |
| TestSuite.ShortLoopStopped | src/main/java/org/jiumao/nist/Base/RandomTestSuite.java:793 | once the verdict is false the loop changes nothing more |
| TestSuite.ShortLoopFails | src/main/java/org/jiumao/nist/Base/RandomTestSuite.java:794-799 | a failing test after passing ones makes the verdict false and names that test |
| TestSuite.Longest | src/main/java/org/jiumao/nist/Base/RandomTestSuite.java:898-933 | the corrected search returns the largest minimum length of the registered tests and the first kind that has it, or 0 and NotDefined for an empty suite |
| TestSuite.ReachesSentinel | src/main/java/org/jiumao/nist/Base/RandomTestSuite.java:902-908 | the as-written loop over values() always reaches a kind without a slot and throws ArrayIndexOutOfBoundsException |
| JavaLang.Div | src/main/java/org/jiumao/nist/random/CumulativeSumForward.java:127-134 | Java's int division rounds toward zero: abs(q) * abs(b) <= abs(a) < (abs(q) + 1) * abs(b), with the sign of a / b |
| JavaLang.Rem | src/main/java/org/jiumao/nist/random/BlockFrequency.java:168 | Java's int remainder rebuilds the dividend and takes its sign |
| JavaLang.DivAgreesOnNaturals | src/main/java/org/jiumao/nist/random/BlockFrequency.java:139-168 | on a non-negative dividend and a positive divisor Java's / and % agree with Euclidean division |
| Ieee.ToInt | src/main/java/org/jiumao/nist/random/Frequency.java:155 | (int) on a double maps NaN to 0 and truncates within the int range |
| Ieee.NaNComparesFalse | src/main/java/org/jiumao/nist/random/Frequency.java:149 | every ordered comparison with NaN is false |
| Ieee.Square | src/main/java/org/jiumao/nist/random/OverlappingTemplateMatchings.java:65 | Math.pow(x, 2) in the chi-square sums is never negative, and NaN only for a NaN argument |

## Left out

- Floating-point numerics are not modelled. This covers the series, continued-fraction and Stirling loops inside `LGamma`, `IGamma`, `IGammaC`, `ErF` and `ErFc`, and `Math.log`, `Math.exp`, `Math.sqrt` and `Math.pow`. It also covers the real FFT butterflies and twiddle tables (`dradf2`, `dradf4`, `dradfg`, `drftf1`, the cos/sin part of `drfti1`). They enter as fields of `MathFunctions.Kernels`, because their results depend on IEEE rounding. Every property stated here holds for any kernel.
- p-value and chi-square magnitudes are not stated. The same goes for Universal's `sigma`, `c` and log sums, and the ApEn logarithms. Only the verdict, error and range logic around them is proved.
- `Ieee.Double` is a real number, plus or minus infinity, or NaN. Finite values do not round, do not overflow to infinity and carry no sign of zero. Decimal literals such as PI and `2.995732274` are kept as the exact decimals written.
- The multi-byte accessors and fills are not modelled: `Get/SetUSPosition`, `Get/SetULPosition`, `Get/Set64Position`, `FillUS` and `FillUL`. They depend on `ByteBuffer` byte order. For the same reason, NonOverlappingTemplateMatchings reads its template through `GetULPosition`, and the model takes the values read as a parameter. Whether those reads throw depends only on the buffer's limit, and `NonOverlappingTest.TemplateFault` models it.
- The `InsufficientMemory` branches guarded by `new ... == null` are left out. They cannot be taken in Java.
- finalize and garbage collection are not modelled beyond what each finalize zeroes or resets, and whether a stream owns its array (autoMemory). The null assignment of the MathematicalFunctions reference is not modelled either.
- All `System.out` printing is left out.
- An exception ends the model's run with an error result. Fields the Java code had already written before throwing are not tracked.
- Lengths and counters are unbounded integers. The 32-bit overflow of an `int` bit length or counter is not modelled, and neither is running out of heap on very large tables (Serial's `P` for large m).
- The RandomGenerator, NIST and RandomnessUtils classes used by LempelZivCompression are not part of this model. The generator's bits are an input sequence, and the test's erfc is a kernel.
- The `RandomTests` enum declaration is not part of this model. `TestKinds` assumes this order:
  1. the eleven suite kinds, in `AddAll` order;
  2. `NumberOfTests`;
  3. `NotDefined`;
  4. `RandomExcursions`.

  This matches the suite's array of eleven slots.
- TestSuite.MinimumLengthOf and TestSuite.Construct: the suite constructs a `DiscreteFourierTransformTest`, a class that is not part of this model; the Fourier test present is `DiscreteFourierTransform`. The model assumes the constructed object reports the kind `DiscreteFourierTransform` from `GetType()`, which `TestSuite.Valid` relies on, and reports `DiscreteFourierTransform.MINIMUMLENGTH` (100) from `GetMinimumLength()`.
- NonOverlappingTemplateMatchings, OverlappingTemplateMatchings and LinearComplexity return null from `GetType`, so they have no kind and no suite slot.
- `src/test/java/org/jiumao/nist/Test.java` is file I/O and is not modelled.
- FrequencyTest.IsRandom: the p-value is stated as erfc(|sum| / sqrt(n) / 1.414...) through the kernels, not as a number.
- UniversalTest.IsRandom: the p-value is erfc of the kernel's normalised statistic, and its magnitude is not bounded.
- DiscreteFourierTransformTest.Moduli: only the number of moduli is stated, since their values come from the FFT kernel.
- LinearComplexityTest.Complexity: it is proved that the register found generates the block. It is not proved that this register is the shortest one.
- RankTest.Pivot, RankTest.ForwardPhase and RankTest.BackwardPhase: these state the shape of the elimination (entries stay bits, rows are swapped or XORed as written, zero and identity matrices are fixed). They do not state that the row space is preserved.
- RankTest.ComputeRank and RankTest.RankOf: their contracts state only 0 <= rank <= rows. Beyond that, `RankTest.ZeroMatrixHasRankZero` and `RankTest.IdentityHasFullRank` cover the zero and identity matrices. It is not proved that the result is the rank of the matrix over GF(2).
- Stream cursor: every test takes the bits that `BaseRandom.StreamBits` reads and returns only the test's state, so the cursor the test leaves in the stream is not returned. This covers `SetBitPosition(0)` in Frequency, Runs, BlockFrequency, LongestRunOfOnes and Universal, the `SetBitPosition` and `GetBitForward` walk over each block in BlockFrequency, the `GetBitForward` walk in Runs, and the `GetBitForward`/`GetBitReverse` walks in the CumulativeSum tests. `BaseRandom.ForwardWalkReadsStreamBits` and `BaseRandom.ReverseWalkReadsStreamBitsBackwards` state where such a walk leaves the cursor, but no test passes it on.
- MathematicalFunctions flags: every `LGamma`, `IGamma` and `IGammaC` call writes the `error` and `mathError` fields of the shared MathematicalFunctions object, which a caller can supply and read. The model's special functions return these flags, but the tests keep only the value and do not pass the flags back.
- Read faults in the tests: a test is applied to the bits `BaseRandom.StreamBits` reads, which requires a stream whose buffer holds its whole bit length. A stream without a buffer, or one whose bit length runs past its buffer, throws from `GetBitPosition` in Java; the tests do not model that exception, except for `RandomExcursionsTest.EmptyStreamThrows`.
- Text members of StringStreams, HexText and DefaultStreams: Java's `String.trim`, `length()` and `charAt()` work on UTF-16 code units, while a Dafny `string` is a sequence of Unicode scalar values. For text with characters outside the Basic Multilingual Plane, the lengths, bit counts, parity check and byte values differ from Java's. This applies to `StringStreams.Trim`, `StringStreams.OfBinaryStringAsWritten`, `StringStreams.OfBinaryString`, `StringStreams.OfHexString`, `HexText.HexDecode` and `DefaultStreams.SetHexString`. Their contracts hold for text made only of Basic Multilingual Plane characters.

## Findings

| source | as written | input that shows it | evidently intended | confidence | as-written member | corrected member |
|---|---|---|---|---|---|---|
| src/main/java/org/jiumao/nist/Base/RandomTestSuite.java:898-933 | GetMinimumLength and GetMinimumLengthRandomTest loop over every `RandomTests` value, including `NumberOfTests`, and index the suite with its ordinal | any suite: `NumberOfTests` has ordinal 11, one past the last slot, so both methods throw ArrayIndexOutOfBoundsException | loop over the eleven suite kinds only | not executed | TestSuite.AsWrittenAlwaysThrows | TestSuite.GetMinimumLength |
| src/main/java/org/jiumao/nist/random/Runs.java:164-179 | the p-value is erfc of a quotient by pi (1 - pi), with no check that the runs prerequisite holds | a stream of 100 zeros: pi (1 - pi) = 0, the p-value is NaN, and NaN is not below alpha or outside [0, 1], so the stream passes | a stream failing the frequency prerequisite fails the test | not executed | RunsTest.ConstantStreamPassesAsWritten | RunsTest.ConstantStreamFails |
| src/main/java/org/jiumao/nist/CryptoRandomStream/StringCryptoRandomStream.java:56-63 | ofBinaryString stores each character's code in its own byte but sets the bit length to the number of characters, so bits are read across those bytes | the text "11": bit 1 of the stream is bit 1 of the first byte, '1' = 0x31, which is 0 | bit p of the stream is 1 exactly when character p is '1' | not executed | StringStreams.BinaryStringAsWrittenMisreads | StringStreams.BinaryStringRoundTrip |
| src/main/java/org/jiumao/nist/random/DiscreteFourierTransform.java:505-542 | drfti1 writes factor j at ifac[j + 1] in a table of 15 ints | a stream of 3^14 = 4782969 bits has fourteen factors 3, and the fourteenth is written at ifac[15] | a factor table with room for every factor of n | not executed | DiscreteFourierTransformTest.LongStreamOverflowsFactorTable | DiscreteFourierTransformTest.Drfti1 |
| src/main/java/org/jiumao/nist/random/LempelZivCompression.java:24-30 | after a new word the accumulator restarts at pattern 1, and `or(bit)` on it yields the same word whatever the bit, so the first bit of each phrase is lost | the stream 0 1 parses as the two phrases "0" and "1" but counts one word | one word per distinct phrase of the parse | not executed | LempelZivTest.AsWrittenMergesPhrases | LempelZivTest.IntendedCountsPhrases |
| src/main/java/org/jiumao/nist/random/LinearComplexity.java:55-61 | P has M entries, and the write P[j + N_ - m] reaches index M when L = 0 and the last bit of a block is the first one | M = 2 and the stream 0 1: m = -1 and N_ = 1, so P[2] is written | arrays with room for the shift, M + 1 entries | not executed | LinearComplexityTest.AsWrittenThrowsOnZeroOne | LinearComplexityTest.CorrectedRunSucceeds |
| src/main/java/org/jiumao/nist/random/RandomExcursions.java:43-59 | the guard `J > cycle.length` lets J reach cycle.length before cycle[J] is written | 2000 alternating bits return to zero 1000 times, exactly max(1000, n / 100), and the write throws ArrayIndexOutOfBoundsException | guard with `>=`, so the stream fails instead | not executed | RandomExcursionsTest.AlternatingStreamOverflows | RandomExcursionsTest.AsWrittenAgreesBelowCapacity |
| src/main/java/org/jiumao/nist/CryptoRandomStream/ByteCryptoRandomStream.java:367-380 | the position check of the sub-stream constructors bounds the position only from above | a view at position -2 of an inner view reaches bytes in front of it, inside the parent's array | reject a negative position too | not executed | ByteStreams.NegativePositionEscapesView | ByteStreams.CheckedViewStaysInside |
