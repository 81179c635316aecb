/** The Frequency (monobit) test, section 2.1 of NIST SP 800-22: the ±1
    sum of the whole stream. */
module FrequencyTest {
  import JavaLang
  import opened Ieee
  import opened TestKinds
  import opened BitWalk
  import opened BaseRandom
  import MathFunctions

  type Bit = JavaLang.Bit
  type Option<T> = JavaLang.Option<T>

  const MINIMUM_LENGTH: int := 100
  /** The literal the test divides by; the exact square root of 2 is not a
      double. */
  const SQRT2_LITERAL: real := 1.41421356237309504880

  datatype State = State(base: TestState, sum: int, sumDivN: Double)

  function New(math: Option<nat>): (t: State)
    ensures t.base == BaseRandom.New(math) && t.sum == 0 && t.sumDivN == Finite(0.0)
  {
    State(BaseRandom.New(math), 0, Finite(0.0))
  }

  /** finalize() runs the base finalize, which also drops alpha and the
      MathematicalFunctions reference; Initialize() resets only the last
      result. Both zero sum and sumDiv_n. */
  function Finalize(t: State): (r: State)
    ensures r.base == BaseRandom.Finalize(t.base) && r.base.alpha == Finite(0.0)
    ensures r.sum == 0 && r.sumDivN == Finite(0.0)
  {
    State(BaseRandom.Finalize(t.base), 0, Finite(0.0))
  }

  function Initialize(t: State): (r: State)
    ensures r.base == BaseRandom.Initialize(t.base) && r.base.alpha == t.base.alpha
    ensures r.sum == 0 && r.sumDivN == Finite(0.0)
  {
    State(BaseRandom.Initialize(t.base), 0, Finite(0.0))
  }

  /** The summing loop: sum += 2 * bit - 1 over every position. */
  method ObservedSum(bits: seq<Bit>) returns (sum: int)
    ensures sum == Walk(bits)
    ensures -|bits| <= sum <= |bits| && (sum - |bits|) % 2 == 0
  {
    sum := 0;
    var i := 0;
    while i < |bits|
      invariant 0 <= i <= |bits|
      invariant sum == Walk(bits[.. i])
    {
      assert bits[.. i + 1][.. i] == bits[.. i];
      sum := sum + (2 * (bits[i] as int) - 1);
      i := i + 1;
    }
    assert bits[.. |bits|] == bits;
    WalkBounds(bits);
  }

  /** p = erfc(|sum| / sqrt(n) / 1.414...). */
  function PValue(k: MathFunctions.Kernels, sum: int, n: int): Double {
    MathFunctions.ErFc(k, Div(Div(Abs(Of(sum)), k.sqrt(Of(n))), Finite(SQRT2_LITERAL)))
  }

  /** isRandom(stream) on the bits the stream yields. A short stream
      changes only the error and the verdict; otherwise the error is
      cleared, the verdict is p >= alpha with no NaN or range check, and the
      sum and sum / n are recorded. */
  function IsRandom(t: State, bits: seq<Bit>, k: MathFunctions.Kernels): (r: State)
    ensures |bits| < MINIMUM_LENGTH ==> r == t.(base := TooShort(t.base))
    ensures |bits| >= MINIMUM_LENGTH ==>
      r.base.error == NoError && r.sum == Walk(bits)
      && r.base.pValue == PValue(k, Walk(bits), |bits|)
      && (r.base.random <==> Passes(r.base.pValue, t.base.alpha))
      && r.sumDivN == Finite(Walk(bits) as real / |bits| as real)
      && r.base.alpha == t.base.alpha && r.base.blockLength == t.base.blockLength
  {
    if |bits| < MINIMUM_LENGTH then t.(base := TooShort(t.base))
    else
      var n := |bits|;
      var sum := Walk(bits);
      var p := PValue(k, sum, n);
      State(t.base.(error := NoError, pValue := p, random := !Lt(p, t.base.alpha)), sum, Div(Of(sum), Of(n)))
  }

  /** The recorded sum determines the ones count, stays within ±n and has
      the parity of n; a constant stream records ±n and a balanced one 0. */
  lemma SumFacts(t: State, bits: seq<Bit>, k: MathFunctions.Kernels)
    requires |bits| >= MINIMUM_LENGTH
    ensures var s := IsRandom(t, bits, k).sum;
      s == 2 * Ones(bits) - |bits| && -|bits| <= s <= |bits| && (s - |bits|) % 2 == 0
    ensures (forall i :: 0 <= i < |bits| ==> bits[i] == 1) ==> IsRandom(t, bits, k).sum == |bits|
    ensures (forall i :: 0 <= i < |bits| ==> bits[i] == 0) ==> IsRandom(t, bits, k).sum == -|bits|
    ensures 2 * Ones(bits) == |bits| ==> IsRandom(t, bits, k).sum == 0
  {
    WalkIsOnesMinusZeros(bits);
    WalkBounds(bits);
    if forall i :: 0 <= i < |bits| ==> bits[i] == 1 {
      WalkOfConstant(bits, 1);
    }
    if forall i :: 0 <= i < |bits| ==> bits[i] == 0 {
      WalkOfConstant(bits, 0);
    }
  }

  /** GetType and GetMinimumLength. */
  function Kind(): (r: RandomTest)
    ensures Registrable(r) && Ordinal(r) == 0
  {
    TestKinds.Frequency
  }
}
