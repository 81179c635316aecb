/** The Approximate Entropy test, section 2.12 of NIST SP 800-22: the
    entropies of the cyclic m-bit and (m+1)-bit pattern frequencies are
    compared; their difference ApEn(m) should be close to ln 2. */
module ApproximateEntropyTest {
  import JavaLang
  import opened Ieee
  import opened TestKinds
  import opened BaseRandom
  import MathFunctions
  import CyclicWindows
  import BitWalk

  type Bit = JavaLang.Bit
  type Option<T> = JavaLang.Option<T>
  type Result<T> = JavaLang.Result<T>

  const MINIMUM_LENGTH: int := 1024
  const DEFAULT_BLOCK_LENGTH: int := 10

  /** The class keeps its own blockLength, which hides BaseRandom's. */
  datatype State = State(
    base: TestState,
    blockLength: int,
    chiSquared: Double,
    phi: Double,
    phiPlusOne: Double,
    apEn: Double,
    blockSizeExceeded: bool,
    maximumBlockSizeRecommended: int)

  function Cleared(base: TestState, blockLength: int): (t: State)
    ensures t.base == base && t.blockLength == blockLength
    ensures t.chiSquared == t.phi == t.phiPlusOne == t.apEn == Finite(0.0)
    ensures !t.blockSizeExceeded && t.maximumBlockSizeRecommended == 0
  {
    State(base, blockLength, Finite(0.0), Finite(0.0), Finite(0.0), Finite(0.0), false, 0)
  }

  /** Both constructors: block length 10 and every result cleared. */
  function New(math: Option<nat>): (t: State)
    ensures t == Cleared(BaseRandom.New(math), DEFAULT_BLOCK_LENGTH)
  {
    Cleared(BaseRandom.New(math), DEFAULT_BLOCK_LENGTH)
  }

  /** finalize() clears the class's own fields, block length included, and
      leaves the base state alone. */
  function Finalize(t: State): (r: State)
    ensures r == Cleared(t.base, 0)
  {
    Cleared(t.base, 0)
  }

  /** Initialize() resets the base state and the results; the block length
      survives. */
  function Initialize(t: State): (r: State)
    ensures r == Cleared(BaseRandom.Initialize(t.base), t.blockLength)
  {
    Cleared(BaseRandom.Initialize(t.base), t.blockLength)
  }

  function SetBlockLength(t: State, b: int): (r: State)
    ensures r.blockLength == b && r.base == t.base
    ensures r == t.(blockLength := b)
  {
    t.(blockLength := b)
  }

  // ---------------------------------------------------------------------
  // phi

  /** One cell's term P[index] * log(P[index] / n); an empty cell is
      skipped. */
  function Term(k: MathFunctions.Kernels, c: nat, n: int): Double {
    Mul(Of(c), k.ln(Div(Of(c), Of(n))))
  }

  /** The sum over the cells of one level, first cell first. */
  function EntropySum(k: MathFunctions.Kernels, cs: seq<nat>, n: int): Double {
    if |cs| == 0 then Finite(0.0)
    else
      var c := cs[|cs| - 1];
      var before := EntropySum(k, cs[.. |cs| - 1], n);
      if c > 0 then Add(before, Term(k, c, n)) else before
  }

  /** ApEn[r] for one block size: 0 for block size 0; block size -1
      allocates an empty counter array and writes P[0]; a smaller one makes
      the array length -1. Otherwise the entropy sum of the level divided
      by n. */
  function Phi(k: MathFunctions.Kernels, bits: seq<Bit>, m: int): (r: Result<Double>)
    requires |bits| > 0
    ensures m == 0 ==> r == JavaLang.Ok(Finite(0.0))
    ensures m == -1 ==> r == JavaLang.Err(JavaLang.ArrayIndexOutOfBounds)
    ensures m < -1 ==> r == JavaLang.Err(JavaLang.NegativeArraySize)
    ensures m >= 1 ==> r.Ok?
  {
    if m == 0 then JavaLang.Ok(Finite(0.0))
    else if m == -1 then JavaLang.Err(JavaLang.ArrayIndexOutOfBounds)
    else if m < -1 then JavaLang.Err(JavaLang.NegativeArraySize)
    else JavaLang.Ok(Div(EntropySum(k, CyclicWindows.Level(bits, m), |bits|), Of(|bits|)))
  }

  /** The sum only takes logarithms of c / n with 0 < c <= n. */
  lemma {:induction false} EntropySumReadsFractions(k1: MathFunctions.Kernels, k2: MathFunctions.Kernels, cs: seq<nat>, n: nat)
    requires n > 0
    requires forall j :: 0 <= j < |cs| ==> cs[j] <= n
    requires forall x: real :: 0.0 < x <= 1.0 ==> k1.ln(Finite(x)) == k2.ln(Finite(x))
    ensures EntropySum(k1, cs, n) == EntropySum(k2, cs, n)
    decreases |cs|
  {
    if |cs| > 0 {
      var c := cs[|cs| - 1];
      var init := cs[.. |cs| - 1];
      assert forall j :: 0 <= j < |init| ==> init[j] == cs[j];
      EntropySumReadsFractions(k1, k2, init, n);
      if c > 0 {
        var x := c as real / n as real;
        assert Div(Of(c), Of(n)) == Finite(x);
        FractionInUnit(c, n);
        assert k1.ln(Finite(x)) == k2.ln(Finite(x));
        assert Term(k1, c, n) == Term(k2, c, n);
      }
    }
  }

  /** Empty cells never reach the logarithm: phi depends on log only at
      fractions in (0, 1], so log 0 = -Infinity never turns it into NaN. */
  lemma PhiReadsFractions(k1: MathFunctions.Kernels, k2: MathFunctions.Kernels, bits: seq<Bit>, m: int)
    requires |bits| > 0
    requires forall x: real :: 0.0 < x <= 1.0 ==> k1.ln(Finite(x)) == k2.ln(Finite(x))
    ensures Phi(k1, bits, m) == Phi(k2, bits, m)
  {
    if m >= 1 {
      CyclicWindows.LevelEntriesBounded(bits, m);
      EntropySumReadsFractions(k1, k2, CyclicWindows.Level(bits, m), |bits|);
    }
  }

  /** Over a single occupied cell the sum is that cell's term. */
  lemma {:induction false} EntropyOfOneEntry(k: MathFunctions.Kernels, len: nat, v: int, c: nat, n: int)
    requires 0 <= v < len && c > 0
    ensures EntropySum(k, CyclicWindows.OneEntry(len, v, c), n) == Term(k, c, n)
  {
    var cs := CyclicWindows.OneEntry(len, v, c);
    if len - 1 > v {
      EntropyOfOneEntry(k, len - 1, v, c, n);
      assert cs[.. len - 1] == CyclicWindows.OneEntry(len - 1, v, c);
    } else {
      EntropyOfZeros(k, v, n);
      assert cs[.. len - 1] == CyclicWindows.OneEntry(v, v, c) == seq(v, _ => 0);
    }
  }

  lemma {:induction false} EntropyOfZeros(k: MathFunctions.Kernels, len: nat, n: int)
    ensures EntropySum(k, seq(len, _ => 0), n) == Finite(0.0)
  {
    if len > 0 {
      EntropyOfZeros(k, len - 1, n);
      assert seq(len, _ => 0)[.. len - 1] == seq(len - 1, _ => 0);
    }
  }

  /** A constant stream has one pattern per level, seen n times: phi is
      n log(1) / n for every block size, 0 when log(1) = 0. */
  lemma PhiOfConstant(k: MathFunctions.Kernels, bits: seq<Bit>, m: int)
    requires |bits| > 0 && m >= 1
    requires forall i :: 0 <= i < |bits| ==> bits[i] == bits[0]
    requires k.ln(Finite(1.0)) == Finite(0.0)
    ensures Phi(k, bits, m) == JavaLang.Ok(Finite(0.0))
  {
    var n := |bits|;
    CyclicWindows.ConstantStreamLevel(bits, m);
    var v := BitWalk.Word(seq(m, _ => bits[0]), 0, m);
    EntropyOfOneEntry(k, JavaLang.Pow2(m), v, n, n);
    WholeTerm(k, n);
  }

  /** n log(n / n) / n = 0 when log(1) = 0. */
  lemma WholeTerm(k: MathFunctions.Kernels, n: int)
    requires n > 0 && k.ln(Finite(1.0)) == Finite(0.0)
    ensures Div(Term(k, n, n), Of(n)) == Finite(0.0)
  {
    FractionInUnit(n, n);
    assert Div(Of(n), Of(n)) == Finite(1.0);
    assert Term(k, n, n) == Finite(0.0);
  }

  lemma FractionInUnit(c: int, n: int)
    requires 0 < c <= n
    ensures 0.0 < c as real / n as real <= 1.0
    ensures c == n ==> c as real / n as real == 1.0
  {
    var x := c as real / n as real;
    assert x * n as real == c as real;
  }

  // ---------------------------------------------------------------------
  // isRandom

  /** chiSquared = 2 n (log 2 - apEn). */
  function ChiSquared(k: MathFunctions.Kernels, n: int, apEn: Double): Double {
    Mul(Mul(Finite(2.0), Of(n)), Sub(k.ln(Of(2)), apEn))
  }

  /** The p-value IGammaC(2^(m-1), chiSquared / 2). */
  function PValue(k: MathFunctions.Kernels, m: int, chiSquared: Double): Double
    requires m >= 0
  {
    MathFunctions.IGammaC(k, MathFunctions.TwoTo(m - 1), Div(chiSquared, Finite(2.0))).0
  }

  /** The early exit for a block length above the recommendation. */
  function Exceeded(t: State, recommended: int): (r: State)
    ensures r.base.error == ResultsInaccurate && !r.base.random
    ensures r.blockSizeExceeded && r.maximumBlockSizeRecommended == recommended
    ensures r.(base := t.base, blockSizeExceeded := t.blockSizeExceeded,
               maximumBlockSizeRecommended := t.maximumBlockSizeRecommended) == t
    ensures r.base.(error := t.base.error, random := t.base.random) == t.base
  {
    t.(base := t.base.(error := ResultsInaccurate, random := false),
       blockSizeExceeded := true, maximumBlockSizeRecommended := recommended)
  }

  /** phi for block sizes m and m + 1, or the exception the first failing
      one throws. */
  function Phis(k: MathFunctions.Kernels, bits: seq<Bit>, m: int): (r: Result<(Double, Double)>)
    requires |bits| > 0
    ensures r.Ok? <==> m >= 0
    ensures r.Ok? ==> r.value == (Phi(k, bits, m).value, Phi(k, bits, m + 1).value)
    ensures m == -1 ==> r == JavaLang.Err(JavaLang.ArrayIndexOutOfBounds)
    ensures m < -1 ==> r == JavaLang.Err(JavaLang.NegativeArraySize)
  {
    var first := Phi(k, bits, m);
    if first.Err? then JavaLang.Err(first.exc)
    else JavaLang.Ok((first.value, Phi(k, bits, m + 1).value))
  }

  /** The statistic and verdict once both phi values are known: apEn,
      chiSquared and the p-value are stored, a NaN p-value is zeroed and
      fails with MathematicianNAN, and otherwise the verdict is p >= alpha. */
  function Scored(t: State, n: int, k: MathFunctions.Kernels, phi: Double, phiPlusOne: Double): (r: State)
    requires t.blockLength >= 0
    ensures r.phi == phi && r.phiPlusOne == phiPlusOne
    ensures r.apEn == Sub(phi, phiPlusOne) && r.chiSquared == ChiSquared(k, n, r.apEn)
    ensures r.blockLength == t.blockLength && r.blockSizeExceeded == t.blockSizeExceeded
    ensures r.maximumBlockSizeRecommended == t.maximumBlockSizeRecommended
    ensures r.base.alpha == t.base.alpha && r.base.blockLength == t.base.blockLength
    ensures var p := PValue(k, t.blockLength, r.chiSquared);
      && r.base.pValue == (if p.NaN? then Finite(0.0) else p)
      && r.base.error == (if p.NaN? then MathematicianNAN else NoError)
      && (r.base.random <==> !p.NaN? && Passes(p, t.base.alpha))
  {
    var apEn := Sub(phi, phiPlusOne);
    var chi := ChiSquared(k, n, apEn);
    var p := PValue(k, t.blockLength, chi);
    var s := t.(base := t.base.(error := NoError), phi := phi, phiPlusOne := phiPlusOne,
                apEn := apEn, chiSquared := chi);
    if p.NaN? then s.(base := s.base.(pValue := Finite(0.0), error := MathematicianNAN, random := false))
    else s.(base := s.base.(pValue := p, random := Passes(p, s.base.alpha)))
  }

  /** isRandom(bitStream). A short stream fails with
      InsufficientNumberOfBits; a block length above the recommendation
      fails with ResultsInaccurate before any counting; a negative block
      length throws; otherwise the stream is scored from phi(m) and
      phi(m + 1). blockSizeExceeded is only ever set, never cleared. */
  function IsRandom(t: State, bits: seq<Bit>, k: MathFunctions.Kernels): (r: Result<State>)
    ensures |bits| < MINIMUM_LENGTH ==> r == JavaLang.Ok(t.(base := TooShort(t.base)))
    ensures |bits| >= MINIMUM_LENGTH && t.blockLength > MaximumBlockSizeRecommended(k, |bits|) ==>
      r == JavaLang.Ok(Exceeded(t, MaximumBlockSizeRecommended(k, |bits|)))
    ensures |bits| >= MINIMUM_LENGTH && t.blockLength == -1 ==> r == JavaLang.Err(JavaLang.ArrayIndexOutOfBounds)
    ensures |bits| >= MINIMUM_LENGTH && t.blockLength < -1 ==> r == JavaLang.Err(JavaLang.NegativeArraySize)
    ensures |bits| >= MINIMUM_LENGTH && 0 <= t.blockLength <= MaximumBlockSizeRecommended(k, |bits|) ==>
      r == JavaLang.Ok(Scored(t, |bits|, k, Phi(k, bits, t.blockLength).value, Phi(k, bits, t.blockLength + 1).value))
  {
    var n := |bits|;
    if n < MINIMUM_LENGTH then JavaLang.Ok(t.(base := TooShort(t.base)))
    else
      var recommended := MaximumBlockSizeRecommended(k, n);
      if t.blockLength > recommended then JavaLang.Ok(Exceeded(t, recommended))
      else
        var phis :- Phis(k, bits, t.blockLength);
        JavaLang.Ok(Scored(t, n, k, phis.0, phis.1))
  }

  function MaximumBlockSizeRecommended(k: MathFunctions.Kernels, n: int): (r: int)
    ensures r >= 1
  {
    CyclicWindows.MaximumBlockSizeRecommended(k, n)
  }

  /** A passing stream has a p-value that is a number at or above alpha. */
  lemma PassIsPValueAboveAlpha(t: State, bits: seq<Bit>, k: MathFunctions.Kernels)
    requires |bits| >= MINIMUM_LENGTH && !t.base.alpha.NaN?
    requires IsRandom(t, bits, k).Ok?
    ensures var r := IsRandom(t, bits, k).value;
      r.base.random <==> Ge(r.base.pValue, t.base.alpha) && r.base.error == NoError
  {
    var r := IsRandom(t, bits, k).value;
    var n := |bits|;
    if 0 <= t.blockLength <= MaximumBlockSizeRecommended(k, n) {
      var p := r.base.pValue;
      if r.base.error == NoError {
        PassesOrdered(p, t.base.alpha);
      }
    }
  }

  /** The default block length 10 is above the recommendation for every
      stream whose computed log2 n is below 12, so with n = 1024 (log2 n =
      10) the test never gets to counting. */
  lemma DefaultBlockLengthExceeded(math: Option<nat>, bits: seq<Bit>, k: MathFunctions.Kernels)
    requires |bits| >= MINIMUM_LENGTH
    requires CyclicWindows.Log2(k, |bits|).Finite? && CyclicWindows.Log2(k, |bits|).v < 12.0
    ensures var r := IsRandom(New(math), bits, k);
      r.Ok? && r.value.base.error == ResultsInaccurate && !r.value.base.random
      && r.value.blockSizeExceeded && r.value.phi == Finite(0.0) && r.value.chiSquared == Finite(0.0)
  {
    CyclicWindows.RecommendationBelow(k, |bits|, DEFAULT_BLOCK_LENGTH);
  }

  /** A constant stream has ApEn = 0, so chiSquared reaches 2 n log 2,
      its largest value. */
  lemma ConstantStreamChiSquared(t: State, bits: seq<Bit>, k: MathFunctions.Kernels)
    requires |bits| >= MINIMUM_LENGTH && 1 <= t.blockLength <= MaximumBlockSizeRecommended(k, |bits|)
    requires forall i :: 0 <= i < |bits| ==> bits[i] == bits[0]
    requires k.ln(Finite(1.0)) == Finite(0.0)
    ensures IsRandom(t, bits, k).Ok?
    ensures IsRandom(t, bits, k).value.apEn == Finite(0.0)
    ensures IsRandom(t, bits, k).value.chiSquared == ChiSquared(k, |bits|, Finite(0.0))
  {
    PhiOfConstant(k, bits, t.blockLength);
    PhiOfConstant(k, bits, t.blockLength + 1);
    ZeroPhis(t, bits, k);
  }

  lemma ZeroPhis(t: State, bits: seq<Bit>, k: MathFunctions.Kernels)
    requires |bits| >= MINIMUM_LENGTH && 0 <= t.blockLength <= MaximumBlockSizeRecommended(k, |bits|)
    requires Phi(k, bits, t.blockLength) == JavaLang.Ok(Finite(0.0))
    requires Phi(k, bits, t.blockLength + 1) == JavaLang.Ok(Finite(0.0))
    ensures IsRandom(t, bits, k) == JavaLang.Ok(Scored(t, |bits|, k, Finite(0.0), Finite(0.0)))
  {
  }

  lemma ZeroPhisScore(t: State, n: int, k: MathFunctions.Kernels)
    requires t.blockLength >= 0
    ensures Scored(t, n, k, Finite(0.0), Finite(0.0)).apEn == Finite(0.0)
    ensures Scored(t, n, k, Finite(0.0), Finite(0.0)).chiSquared == ChiSquared(k, n, Finite(0.0))
  {
    var r := Scored(t, n, k, Finite(0.0), Finite(0.0));
    assert r.apEn == Sub(Finite(0.0), Finite(0.0));
    assert Sub(Finite(0.0), Finite(0.0)) == Finite(0.0);
    var a := r.apEn;
    assert a == Finite(0.0);
    assert r.chiSquared == ChiSquared(k, n, a);
  }

  function Kind(): (r: RandomTest)
    ensures Registrable(r) && Ordinal(r) == 8
  {
    TestKinds.ApproximateEntropy
  }
}
