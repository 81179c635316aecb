/** BaseRandom: the state every randomness test carries (block length,
    significance level, last p-value, verdict and error, and the
    MathematicalFunctions object it computes with), together with the
    verdict rules the tests share. */
module BaseRandom {
  import opened JavaLang
  import opened Ieee
  import opened TestKinds
  import opened CryptoStreams
  import BitWalk
  import MathFunctions

  /** The significance level constant. Instances do not start from it. */
  const ALPHA: real := 0.01
  /** MINIMUMLENGTH, the shortest stream most tests accept. */
  const MINIMUMLENGTH: int := 100
  /** MAXNUMOFTEMPLATES: aperiodic templates of length 9. */
  const MAXNUMOFTEMPLATES: int := 148

  /** The MathematicalFunctions object a test uses: its own, or one it was
      handed (identified by reference). */
  datatype MathRef = Own | Borrowed(id: nat)

  datatype TestState = TestState(
    blockLength: int,
    alpha: Double,
    pValue: Double,
    random: bool,
    error: RandomTestError,
    mathFuncs: Option<MathRef>,   // null after finalize
    autoMathFunc: bool)

  /** Both constructors: a null argument makes the test create its own
      MathematicalFunctions object, anything else is borrowed. The block
      length is the Java default 0 until a subclass sets its own. */
  function New(math: Option<nat>): (t: TestState)
    ensures t.error == NoError && t.alpha == Finite(0.0) && t.pValue == Finite(0.0) && !t.random
    ensures t.blockLength == 0
    ensures t.autoMathFunc <==> math.None?
    ensures math.Some? ==> t.mathFuncs == Some(Borrowed(math.value))
    ensures math.None? ==> t.mathFuncs == Some(Own)
  {
    TestState(0, Finite(0.0), Finite(0.0), false, NoError,
              Some(if math.None? then Own else Borrowed(math.value)), math.None?)
  }

  /** A new test does not use the ALPHA constant: with alpha 0 a p-value
      of 0 already passes. */
  lemma AlphaStartsAtZero(math: Option<nat>)
    ensures New(math).alpha != Finite(ALPHA)
    ensures !Lt(Finite(0.0), New(math).alpha)
  {
  }

  /** finalize(): clears the results and drops the MathematicalFunctions
      reference; the block length survives. */
  function Finalize(t: TestState): (r: TestState)
    ensures r.alpha == Finite(0.0) && r.pValue == Finite(0.0) && !r.random && r.error == NoError
    ensures r.mathFuncs.None? && r.blockLength == t.blockLength && r.autoMathFunc == t.autoMathFunc
  {
    t.(alpha := Finite(0.0), pValue := Finite(0.0), mathFuncs := None, random := false, error := NoError)
  }

  /** Initialize(): resets the last result only. */
  function Initialize(t: TestState): (r: TestState)
    ensures r.pValue == Finite(0.0) && !r.random && r.error == NoError
    ensures r.alpha == t.alpha && r.blockLength == t.blockLength
    ensures r.mathFuncs == t.mathFuncs && r.autoMathFunc == t.autoMathFunc
  {
    t.(pValue := Finite(0.0), random := false, error := NoError)
  }

  lemma InitializeIdempotent(t: TestState)
    ensures Initialize(Initialize(t)) == Initialize(t)
  {
  }

  function SetAlpha(t: TestState, a: Double): (r: TestState)
    ensures r.alpha == a && r.(alpha := t.alpha) == t
  {
    t.(alpha := a)
  }

  function SetBlockLength(t: TestState, b: int): (r: TestState)
    ensures r.blockLength == b && r.(blockLength := t.blockLength) == t
  {
    t.(blockLength := b)
  }

  function SetPValue(t: TestState, p: Double): (r: TestState)
    ensures r.pValue == p && r.(pValue := t.pValue) == t
  {
    t.(pValue := p)
  }

  /** Setting a field and reading it back gives the value set, and setting
      the same field twice keeps only the last value. */
  lemma AccessorsRoundTrip(t: TestState, a: Double, a2: Double, b: int, b2: int)
    ensures SetAlpha(t, a).alpha == a && SetBlockLength(t, b).blockLength == b
    ensures SetAlpha(SetAlpha(t, a), a2) == SetAlpha(t, a2)
    ensures SetBlockLength(SetBlockLength(t, b), b2) == SetBlockLength(t, b2)
    ensures Initialize(SetAlpha(t, a)).alpha == a && Initialize(SetBlockLength(t, b)).blockLength == b
  {
  }

  // ---------------------------------------------------------------------
  // Shared verdict rules

  /** `if (pValue < alpha) random = false; else random = true;`: anything
      that does not compare below alpha passes, NaN included. */
  predicate Passes(p: Double, alpha: Double) { !Lt(p, alpha) }

  lemma NaNPasses(alpha: Double)
    ensures Passes(NaN, alpha)
  {
  }

  lemma PassesOrdered(p: Double, alpha: Double)
    requires !p.NaN? && !alpha.NaN?
    ensures Passes(p, alpha) <==> Ge(p, alpha)
  {
  }

  /** The range check several tests apply after the verdict: below 0 or
      above 1. NaN is in range. */
  predicate OutOfRange(p: Double) {
    MathFunctions.IsNegative(p) || MathFunctions.IsGreaterThanOne(p)
  }

  /** The verdict `p >= alpha`, then the range check that may overturn it. */
  function Judge(b: TestState, p: Double): (r: TestState)
    ensures r.pValue == p && r.alpha == b.alpha && r.blockLength == b.blockLength
    ensures r.random <==> Passes(p, b.alpha) && !OutOfRange(p)
    ensures r.error == if OutOfRange(p) then PValueOutOfRange else b.error
  {
    var b := b.(pValue := p, random := Passes(p, b.alpha));
    if OutOfRange(p) then b.(random := false, error := PValueOutOfRange) else b
  }

  /** The early exit for a stream shorter than the test's minimum. */
  function TooShort(t: TestState): (r: TestState)
    ensures r.error == InsufficientNumberOfBits && !r.random
    ensures r.(error := t.error, random := t.random) == t
  {
    t.(error := InsufficientNumberOfBits, random := false)
  }

  // ---------------------------------------------------------------------
  // What a test reads

  /** The bits a test reads from a stream: GetBitPosition(i) for every i
      below GetBitLength. */
  function StreamBits(heap: Heap, s: Stream): (bits: seq<Bit>)
    requires Valid(heap, s) && s.buffer.Some? && 0 <= GetBitLength(s) <= 8 * s.buffer.value.limit
    ensures |bits| == GetBitLength(s)
    ensures forall i :: 0 <= i < |bits| ==> GetBit(heap, s, i) == Ok(bits[i])
  {
    Bits(heap, s, GetBitLength(s))
  }

  /** A test that walks the stream with GetBitForward from position 0 reads
      the same bits and leaves the cursor at GetBitLength. */
  lemma ForwardWalkReadsStreamBits(heap: Heap, s: Stream)
    requires Valid(heap, s) && s.buffer.Some? && 0 <= GetBitLength(s) <= 8 * s.buffer.value.limit
    ensures ReadForward(heap, SetPosition(s, 0), GetBitLength(s))
            == Ok((StreamBits(heap, s), s.(position := GetBitLength(s))))
  {
    var n := GetBitLength(s);
    var t := SetPosition(s, 0);
    ForwardReadsBits(heap, t, n, n);
    assert Bits(heap, t, n) == Bits(heap, s, n);
    assert Bits(heap, t, n)[0 .. n] == Bits(heap, t, n);
  }

  /** A test that walks the stream with GetBitReverse from the last bit
      reads the same bits back to front and leaves the cursor at -1. */
  lemma ReverseWalkReadsStreamBitsBackwards(heap: Heap, s: Stream)
    requires Valid(heap, s) && s.buffer.Some? && 0 <= GetBitLength(s) <= 8 * s.buffer.value.limit
    ensures ReadReverse(heap, SetPosition(s, GetBitLength(s) - 1), GetBitLength(s))
            == Ok((BitWalk.Reverse(StreamBits(heap, s)), s.(position := -1)))
  {
    var n := GetBitLength(s);
    var t := SetPosition(s, n - 1);
    ReverseReadsBits(heap, t, n, n);
    assert Bits(heap, t, n) == Bits(heap, s, n);
    var read := ReadReverse(heap, t, n).value.0;
    assert read == BitWalk.Reverse(StreamBits(heap, s));
  }
}
