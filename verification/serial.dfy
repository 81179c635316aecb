/** The Serial test, section 2.11 of NIST SP 800-22: the frequencies of all
    overlapping m-bit patterns of the wrapped-around stream, compared
    through the first and second differences of psi^2_m. */
module SerialTest {
  import JavaLang
  import opened Ieee
  import opened TestKinds
  import opened BaseRandom
  import MathFunctions
  import CyclicWindows

  type Bit = JavaLang.Bit
  type Option<T> = JavaLang.Option<T>
  type Result<T> = JavaLang.Result<T>

  const MINIMUM_LENGTH: int := 128
  const DEFAULT_BLOCK_LENGTH: int := 16

  /** The class keeps its own blockLength, which hides BaseRandom's. */
  datatype State = State(
    base: TestState,
    blockLength: int,
    pvalue2: Double,
    psim: Double, psim1: Double, psim2: Double,
    delta1: Double, delta2: Double)

  function Cleared(base: TestState, blockLength: int): (t: State)
    ensures t.base == base && t.blockLength == blockLength
    ensures t.pvalue2 == t.psim == t.psim1 == t.psim2 == t.delta1 == t.delta2 == Finite(0.0)
  {
    State(base, blockLength, Finite(0.0), Finite(0.0), Finite(0.0), Finite(0.0), Finite(0.0), Finite(0.0))
  }

  /** Both constructors: block length 16 and every result 0. */
  function New(math: Option<nat>): (t: State)
    ensures t == Cleared(BaseRandom.New(math), DEFAULT_BLOCK_LENGTH)
  {
    Cleared(BaseRandom.New(math), DEFAULT_BLOCK_LENGTH)
  }

  /** finalize() zeroes the class's own fields, block length included, and
      leaves the base state alone. */
  function Finalize(t: State): (r: State)
    ensures r == Cleared(t.base, 0)
  {
    Cleared(t.base, 0)
  }

  /** Initialize() resets the base state and the results; the block length
      survives. */
  function Initialize(t: State): (r: State)
    ensures r == Cleared(BaseRandom.Initialize(t.base), t.blockLength)
  {
    Cleared(BaseRandom.Initialize(t.base), t.blockLength)
  }

  function SetBlockLength(t: State, b: int): (r: State)
    ensures r.blockLength == b && r.base == t.base
  {
    t.(blockLength := b)
  }

  function MaximumBlockSizeRecommended(k: MathFunctions.Kernels, n: int): (r: int)
    ensures r >= 1
  {
    CyclicWindows.MaximumBlockSizeRecommended(k, n)
  }

  // ---------------------------------------------------------------------
  // psi^2

  /** psi2(m, stream). m = 0 and m = -1 give 0 at once; a smaller m makes
      the counter array length (int) 2^(m+1) - 1 = -1. Otherwise the sum of
      the squared level-m counters, times 2^m / n, minus n (Math.pow of an
      int count by 2 is its exact square). */
  function Psi2(bits: seq<Bit>, m: int): (r: Result<Double>)
    requires |bits| > 0
    ensures m == 0 || m == -1 ==> r == JavaLang.Ok(Finite(0.0))
    ensures m < -1 ==> r == JavaLang.Err(JavaLang.NegativeArraySize)
    ensures 1 <= m < 1024 ==> r.Ok? && r.value.Finite?
  {
    if m == 0 || m == -1 then JavaLang.Ok(Finite(0.0))
    else if m < -1 then JavaLang.Err(JavaLang.NegativeArraySize)
    else
      JavaLang.Ok(Statistic(CyclicWindows.SumOfSquares(CyclicWindows.Level(bits, m)), m, |bits|))
  }

  /** sum * Math.pow(2, m) / n - n in doubles. */
  function Statistic(sum: int, m: nat, n: int): Double {
    Sub(Div(Mul(Of(sum), MathFunctions.TwoTo(m)), Of(n)), Of(n))
  }

  lemma StatisticExact(sum: int, m: nat, n: int)
    requires n > 0 && m < 1024
    ensures Statistic(sum, m, n) == Finite(Scaled(sum, JavaLang.Pow2(m), n))
  {
    assert MathFunctions.TwoTo(m) == Finite(JavaLang.Pow2(m) as real);
    FiniteSteps(sum as real, JavaLang.Pow2(m) as real, n as real);
  }

  /** On finite operands with a non-zero divisor, a * p / n - n stays exact. */
  lemma FiniteSteps(a: real, p: real, n: real)
    requires n != 0.0
    ensures Sub(Div(Mul(Finite(a), Finite(p)), Finite(n)), Finite(n)) == Finite(a * p / n - n)
  {
    var q := a * p;
    assert Mul(Finite(a), Finite(p)) == Finite(q);
    assert Div(Finite(q), Finite(n)) == Finite(q / n);
  }

  /** The value psi2 computes for 1 <= m < 1024, in exact arithmetic. */
  lemma Psi2Formula(bits: seq<Bit>, m: int)
    requires |bits| > 0 && 1 <= m < 1024
    ensures Psi2(bits, m) == JavaLang.Ok(Finite(Scaled(CyclicWindows.SumOfSquares(CyclicWindows.Level(bits, m)), JavaLang.Pow2(m), |bits|)))
  {
    StatisticExact(CyclicWindows.SumOfSquares(CyclicWindows.Level(bits, m)), m, |bits|);
  }

  /** sum * 2^m / n - n. */
  function Scaled(sum: int, p: int, n: int): real
    requires n > 0
  {
    sum as real * p as real / n as real - n as real
  }

  lemma ScaledBound(sum: int, p: int, n: int)
    requires n > 0 && p * sum >= n * n
    ensures Scaled(sum, p, n) >= 0.0
  {
    var q := sum as real * p as real / n as real;
    assert sum as real * p as real == (p * sum) as real;
    assert q * n as real == (p * sum) as real;
    assert (p * sum) as real >= (n * n) as real;
    if q < n as real {
      assert q * n as real < n as real * n as real;
    }
  }

  lemma ScaledSquare(n: int, p: int)
    requires n > 0
    ensures Scaled(n * n, p, n) == (n * (p - 1)) as real
  {
    assert (n * n) as real * p as real == (n * p) as real * n as real;
  }

  /** psi^2_m is never negative: the n windows spread over 2^m counters
      give a sum of squares of at least n^2 / 2^m. */
  lemma Psi2NonNegative(bits: seq<Bit>, m: int)
    requires |bits| > 0 && m < 1024
    ensures Psi2(bits, m).Ok? ==> Psi2(bits, m).value.Finite? && Psi2(bits, m).value.v >= 0.0
  {
    if m >= 1 {
      var level := CyclicWindows.Level(bits, m);
      CyclicWindows.SquaresBound(level);
      CyclicWindows.LevelTotal(bits, m);
      Psi2Formula(bits, m);
      ScaledBound(CyclicWindows.SumOfSquares(level), JavaLang.Pow2(m), |bits|);
    }
  }

  /** A constant stream puts every window into one counter: psi^2_m takes
      its largest value n (2^m - 1). */
  lemma Psi2OfConstant(bits: seq<Bit>, m: nat)
    requires |bits| > 0 && 1 <= m < 1024
    requires forall i :: 0 <= i < |bits| ==> bits[i] == bits[0]
    ensures Psi2(bits, m) == JavaLang.Ok(Finite((|bits| * (JavaLang.Pow2(m) - 1)) as real))
  {
    CyclicWindows.ConstantStreamSquares(bits, m);
    Psi2OfOneCounter(bits, m);
  }

  /** The sum of squares n^2 is the one a single counter holding every
      window gives. */
  lemma Psi2OfOneCounter(bits: seq<Bit>, m: nat)
    requires |bits| > 0 && 1 <= m < 1024
    requires CyclicWindows.SumOfSquares(CyclicWindows.Level(bits, m)) == |bits| * |bits|
    ensures Psi2(bits, m) == JavaLang.Ok(Finite((|bits| * (JavaLang.Pow2(m) - 1)) as real))
  {
    StatisticOfSquare(|bits|, m);
  }

  /** The statistic of a sum of squares n^2 over n windows. */
  lemma StatisticOfSquare(n: int, m: nat)
    requires n > 0 && 1 <= m < 1024
    ensures Statistic(n * n, m, n) == Finite((n * (JavaLang.Pow2(m) - 1)) as real)
  {
    StatisticExact(n * n, m, n);
    ScaledSquare(n, JavaLang.Pow2(m));
  }

  // ---------------------------------------------------------------------
  // isRandom

  /** Math.pow(2, e) / 2, the first argument of both IGammaC calls. */
  function HalfPower(e: int): Double
    requires e >= -1
  {
    Div(MathFunctions.TwoTo(e), Finite(2.0))
  }

  /** The three psi^2 values, or the exception the first failing psi2
      call throws. */
  function Psis(bits: seq<Bit>, m: int): (r: Result<(Double, Double, Double)>)
    requires |bits| > 0
    ensures r.Ok? <==> m >= 1
    ensures r.Ok? ==> r.value == (Psi2(bits, m).value, Psi2(bits, m - 1).value, Psi2(bits, m - 2).value)
    ensures r.Err? ==> r.exc == JavaLang.NegativeArraySize
  {
    var psim :- Psi2(bits, m);
    var psim1 :- Psi2(bits, m - 1);
    var psim2 :- Psi2(bits, m - 2);
    JavaLang.Ok((psim, psim1, psim2))
  }

  /** The first p-value, from delta1 with 2^(m-1) / 2 degrees. */
  function FirstP(k: MathFunctions.Kernels, m: int, delta1: Double): Double
    requires m >= 0
  {
    MathFunctions.IGammaC(k, HalfPower(m - 1), Div(delta1, Finite(2.0))).0
  }

  /** The second p-value, from delta2 with 2^(m-2) / 2 degrees. */
  function SecondP(k: MathFunctions.Kernels, m: int, delta2: Double): Double
    requires m >= 1
  {
    MathFunctions.IGammaC(k, HalfPower(m - 2), Div(delta2, Finite(2.0))).0
  }

  /** The state after the three psi2 calls and the two differences. */
  function Measured(t: State, bits: seq<Bit>): (r: Result<State>)
    requires |bits| > 0
    ensures r.Ok? <==> t.blockLength >= 1
    ensures r.Err? ==> r.exc == JavaLang.NegativeArraySize
    ensures r.Ok? ==> var m := t.blockLength;
      r.value == t.(base := t.base.(error := NoError),
                    psim := Psi2(bits, m).value, psim1 := Psi2(bits, m - 1).value, psim2 := Psi2(bits, m - 2).value,
                    delta1 := Sub(r.value.psim, r.value.psim1),
                    delta2 := Add(Sub(r.value.psim, Mul(Finite(2.0), r.value.psim1)), r.value.psim2))
  {
    var ps :- Psis(bits, t.blockLength);
    var (psim, psim1, psim2) := ps;
    JavaLang.Ok(t.(base := t.base.(error := NoError), psim := psim, psim1 := psim1, psim2 := psim2,
                   delta1 := Sub(psim, psim1), delta2 := Add(Sub(psim, Mul(Finite(2.0), psim1)), psim2)))
  }

  /** isRandom(bitStream). A short stream fails with
      InsufficientNumberOfBits; a block length below 1 makes the third psi2
      call throw. Otherwise a NaN first p-value is zeroed and fails before
      the second is computed, a NaN second p-value is zeroed and fails, and
      the verdict needs both p-values at or above alpha. */
  function IsRandom(t: State, bits: seq<Bit>, k: MathFunctions.Kernels): (r: Result<State>)
    ensures |bits| < MINIMUM_LENGTH ==> r == JavaLang.Ok(t.(base := TooShort(t.base)))
    ensures |bits| >= MINIMUM_LENGTH && t.blockLength < 1 ==> r == JavaLang.Err(JavaLang.NegativeArraySize)
    ensures |bits| >= MINIMUM_LENGTH && t.blockLength >= 1 ==> (
      r.Ok? &&
      var s := Measured(t, bits).value;
      var p1 := FirstP(k, t.blockLength, s.delta1);
      var p2 := SecondP(k, t.blockLength, s.delta2);
      && r.value.(base := s.base, pvalue2 := s.pvalue2) == s
      && r.value.base.alpha == t.base.alpha && r.value.base.blockLength == t.base.blockLength
      && (p1.NaN? ==>
            r.value.base.pValue == Finite(0.0) && r.value.pvalue2 == t.pvalue2
            && r.value.base.error == MathematicianNAN && !r.value.base.random)
      && (!p1.NaN? && p2.NaN? ==>
            r.value.base.pValue == p1 && r.value.pvalue2 == Finite(0.0)
            && r.value.base.error == MathematicianNAN && !r.value.base.random)
      && (!p1.NaN? && !p2.NaN? ==>
            r.value.base.pValue == p1 && r.value.pvalue2 == p2 && r.value.base.error == NoError)
      && (r.value.base.random <==>
            !p1.NaN? && !p2.NaN? && Passes(p1, t.base.alpha) && Passes(p2, t.base.alpha)))
  {
    if |bits| < MINIMUM_LENGTH then JavaLang.Ok(t.(base := TooShort(t.base)))
    else
      var s :- Measured(t, bits);
      var p1 := FirstP(k, s.blockLength, s.delta1);
      if p1.NaN? then
        JavaLang.Ok(s.(base := s.base.(pValue := Finite(0.0), error := MathematicianNAN, random := false)))
      else
        var p2 := SecondP(k, s.blockLength, s.delta2);
        if p2.NaN? then
          JavaLang.Ok(s.(base := s.base.(pValue := p1, error := MathematicianNAN, random := false),
                         pvalue2 := Finite(0.0)))
        else
          var random := !Lt(p1, s.base.alpha) && !Lt(p2, s.base.alpha);
          JavaLang.Ok(s.(base := s.base.(pValue := p1, random := random), pvalue2 := p2))
  }

  /** The verdict is the conjunction of the two p-value checks: passing
      needs each p-value to be a number at or above alpha. */
  lemma VerdictIsBothChecks(t: State, bits: seq<Bit>, k: MathFunctions.Kernels)
    requires |bits| >= MINIMUM_LENGTH && t.blockLength >= 1 && !t.base.alpha.NaN?
    ensures var r := IsRandom(t, bits, k).value;
      r.base.random <==> Ge(r.base.pValue, t.base.alpha) && Ge(r.pvalue2, t.base.alpha) && r.base.error == NoError
  {
    var r := IsRandom(t, bits, k).value;
    var s := Measured(t, bits).value;
    var p1 := FirstP(k, t.blockLength, s.delta1);
    var p2 := SecondP(k, t.blockLength, s.delta2);
    if p1.NaN? {
      assert r.base.error == MathematicianNAN;
    } else if p2.NaN? {
      assert r.base.error == MathematicianNAN;
    } else {
      PassesOrdered(p1, t.base.alpha);
      PassesOrdered(p2, t.base.alpha);
      assert r.base.pValue == p1 && r.pvalue2 == p2 && r.base.error == NoError;
    }
  }

  /** With m = 1 the two shorter psi^2 values are 0, so both differences
      equal psi^2_1. */
  lemma BlockLengthOneDeltas(t: State, bits: seq<Bit>)
    requires |bits| > 0 && t.blockLength == 1
    ensures Measured(t, bits).Ok?
    ensures Measured(t, bits).value.delta1 == Psi2(bits, 1).value
    ensures Measured(t, bits).value.delta2 == Psi2(bits, 1).value
  {
    Psi2NonNegative(bits, 1);
  }

  /** A freshly constructed test runs with m = 16 on any stream of at
      least 128 bits and records its psi^2 values. */
  lemma DefaultBlockLengthRuns(math: Option<nat>, bits: seq<Bit>, k: MathFunctions.Kernels)
    requires |bits| >= MINIMUM_LENGTH
    ensures IsRandom(New(math), bits, k).Ok?
    ensures IsRandom(New(math), bits, k).value.psim == Psi2(bits, 16).value
  {
  }

  /** Block length 0 throws NegativeArraySizeException from psi2(-2). */
  lemma BlockLengthZeroThrows(math: Option<nat>, bits: seq<Bit>, k: MathFunctions.Kernels)
    requires |bits| >= MINIMUM_LENGTH
    ensures IsRandom(SetBlockLength(New(math), 0), bits, k) == JavaLang.Err(JavaLang.NegativeArraySize)
  {
  }

  function Kind(): (r: RandomTest)
    ensures Registrable(r) && Ordinal(r) == 9
  {
    TestKinds.Serial
  }
}
