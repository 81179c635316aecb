/** The Cumulative Sums (Cusum) test, section 2.13 of NIST SP 800-22, in
    its forward and reverse modes: the largest excursion of the ±1 walk
    from zero. */
module CumulativeSumsTest {
  import JavaLang
  import opened Ieee
  import opened TestKinds
  import opened BitWalk
  import opened BaseRandom
  import MathFunctions

  type Bit = JavaLang.Bit
  type Option<T> = JavaLang.Option<T>

  const MINIMUM_LENGTH: int := 100

  /** CumulativeSumForward walks from the first bit with GetBitForward,
      CumulativeSumReverse from the last with GetBitReverse. */
  datatype Mode = Forward | Reverse

  datatype State = State(base: TestState, mode: Mode, cuSum: int)

  function New(mode: Mode, math: Option<nat>): (t: State)
    ensures t.base == BaseRandom.New(math) && t.mode == mode && t.cuSum == 0
  {
    State(BaseRandom.New(math), mode, 0)
  }

  /** finalize() and Initialize() both zero cuSum; only Initialize resets
      the base state. */
  function Finalize(t: State): (r: State)
    ensures r.cuSum == 0 && r.base == t.base && r.mode == t.mode
  {
    t.(cuSum := 0)
  }

  function Initialize(t: State): (r: State)
    ensures r.cuSum == 0 && r.base == BaseRandom.Initialize(t.base) && r.mode == t.mode
  {
    t.(base := BaseRandom.Initialize(t.base), cuSum := 0)
  }

  // ---------------------------------------------------------------------
  // The largest excursion

  function AbsInt(x: int): nat { if x < 0 then -x else x }

  /** cuSum after the walk over `bits`: it starts at 1 and takes the
      maximum with |S_k| after every step. */
  function MaxExcursion(bits: seq<Bit>): (z: nat)
    ensures z >= 1
  {
    if |bits| == 0 then 1
    else
      var prev := MaxExcursion(bits[.. |bits| - 1]);
      var here := AbsInt(Walk(bits));
      if here > prev then here else prev
  }

  /** The walk in the order the mode reads the stream. */
  function Ordered(mode: Mode, bits: seq<Bit>): (r: seq<Bit>)
    ensures |r| == |bits|
  {
    if mode == Forward then bits else BitWalk.Reverse(bits)
  }

  /** The summing loop of isRandom over the bits in reading order. */
  method ObservedExcursion(walk: seq<Bit>) returns (z: int)
    ensures z == MaxExcursion(walk)
  {
    var sum := 0;
    z := 1;
    var i := 0;
    while i < |walk|
      invariant 0 <= i <= |walk|
      invariant sum == Walk(walk[.. i]) && z == MaxExcursion(walk[.. i])
    {
      assert walk[.. i + 1][.. i] == walk[.. i];
      sum := sum + (2 * (walk[i] as int) - 1);
      var a := if sum < 0 then -sum else sum;
      z := if z > a then z else a;
      i := i + 1;
    }
    assert walk[.. |walk|] == walk;
  }

  /** No partial sum goes further from zero than the excursion ... */
  lemma {:induction false} ExcursionBoundsPrefixes(bits: seq<Bit>, i: int)
    requires 0 <= i < |bits|
    ensures AbsInt(Prefix(bits, i)) <= MaxExcursion(bits)
    decreases |bits|
  {
    if i < |bits| - 1 {
      var init := bits[.. |bits| - 1];
      assert init[.. i + 1] == bits[.. i + 1];
      ExcursionBoundsPrefixes(init, i);
    } else {
      assert bits[.. i + 1] == bits;
    }
  }

  /** ... and the excursion is reached by one of them, or is the starting
      value 1. */
  lemma {:induction false} ExcursionIsReached(bits: seq<Bit>) returns (i: int)
    ensures -1 <= i < |bits|
    ensures i == -1 ==> MaxExcursion(bits) == 1
    ensures i >= 0 ==> MaxExcursion(bits) == AbsInt(Prefix(bits, i))
    decreases |bits|
  {
    if |bits| == 0 {
      i := -1;
    } else {
      var init := bits[.. |bits| - 1];
      if AbsInt(Walk(bits)) > MaxExcursion(init) {
        i := |bits| - 1;
        assert bits[.. i + 1] == bits;
      } else {
        i := ExcursionIsReached(init);
        if i >= 0 {
          assert init[.. i + 1] == bits[.. i + 1];
        }
      }
    }
  }

  /** The first step already moves the walk to ±1, so a non-empty walk
      never exceeds its length and reaches at least 1. */
  lemma ExcursionRange(bits: seq<Bit>)
    requires |bits| > 0
    ensures 1 <= MaxExcursion(bits) <= |bits|
  {
    var i := ExcursionIsReached(bits);
    if i >= 0 {
      PrefixBound(bits, i);
    }
  }

  /** A constant stream walks straight away from zero: the excursion is n. */
  lemma {:induction false} ConstantExcursion(bits: seq<Bit>)
    requires |bits| > 0 && forall i :: 0 <= i < |bits| ==> bits[i] == bits[0]
    ensures MaxExcursion(bits) == |bits|
    decreases |bits|
  {
    WalkOfConstant(bits, bits[0]);
    if |bits| > 1 {
      ConstantExcursion(bits[.. |bits| - 1]);
    }
  }

  // ---------------------------------------------------------------------
  // The p-value

  /** sum over k = lo..hi of Normal((4k + a) z / sqrt n) - Normal((4k + b) z / sqrt n). */
  function NormalSum(k: MathFunctions.Kernels, z: int, n: int, lo: int, hi: int, a: int, b: int): Double
    decreases hi - lo + 1
  {
    if lo > hi then Finite(0.0)
    else
      var root := k.sqrt(Of(n));
      var term := Sub(MathFunctions.Normal(k, Div(Of((4 * lo + a) * z), root)),
                      MathFunctions.Normal(k, Div(Of((4 * lo + b) * z), root)));
      Add(term, NormalSum(k, z, n, lo + 1, hi, a, b))
  }

  /** The two summation ranges, with Java's truncating int division. */
  function FirstStart(n: int, z: int): int requires z != 0 { JavaLang.Div(JavaLang.Div(-n, z) + 1, 4) }
  function SecondStart(n: int, z: int): int requires z != 0 { JavaLang.Div(JavaLang.Div(-n, z) - 3, 4) }
  function Finish(n: int, z: int): int requires z != 0 { JavaLang.Div(JavaLang.Div(n, z) - 1, 4) }

  /** p = 1 - sum1 + sum2. */
  function PValue(k: MathFunctions.Kernels, n: int, z: int): Double
    requires z >= 1
  {
    Add(Sub(Finite(1.0), NormalSum(k, z, n, FirstStart(n, z), Finish(n, z), 1, -1)),
        NormalSum(k, z, n, SecondStart(n, z), Finish(n, z), 3, 1))
  }

  /** With 1 <= z <= n the ranges are sane: both start at or below 0 and
      the finish is at least 0, so each sum has a k = 0 term. */
  lemma RangesContainZero(n: int, z: int)
    requires 1 <= z <= n
    ensures SecondStart(n, z) <= FirstStart(n, z) <= 0 <= Finish(n, z)
  {
    JavaLang.DivAgreesOnNaturals(n, z);
    assert n / z >= 1 by {
      assert z * 1 <= n;
    }
  }

  /** isRandom(stream): z is the largest excursion of the walk in the
      mode's reading order, then the range check and the verdict. */
  function IsRandom(t: State, bits: seq<Bit>, k: MathFunctions.Kernels): (r: State)
    ensures |bits| < MINIMUM_LENGTH ==> r == t.(base := TooShort(t.base))
    ensures |bits| >= MINIMUM_LENGTH ==>
      r.cuSum == MaxExcursion(Ordered(t.mode, bits)) && 1 <= r.cuSum <= |bits| && r.mode == t.mode
      && r.base == Judge(t.base.(error := NoError), PValue(k, |bits|, r.cuSum))
  {
    if |bits| < MINIMUM_LENGTH then t.(base := TooShort(t.base))
    else
      var z := MaxExcursion(Ordered(t.mode, bits));
      ExcursionRange(Ordered(t.mode, bits));
      State(Judge(t.base.(error := NoError), PValue(k, |bits|, z)), t.mode, z)
  }

  /** Both modes end the walk at ones minus zeros, so in either mode z is
      at least the distance of the final sum from zero. */
  lemma ExcursionCoversEndpoint(t: State, bits: seq<Bit>, k: MathFunctions.Kernels)
    requires |bits| >= MINIMUM_LENGTH
    ensures IsRandom(t, bits, k).cuSum >= AbsInt(2 * Ones(bits) - |bits|)
  {
    OrderedCoversEndpoint(t.mode, bits);
  }

  lemma OrderedCoversEndpoint(mode: Mode, bits: seq<Bit>)
    requires |bits| > 0
    ensures MaxExcursion(Ordered(mode, bits)) >= AbsInt(2 * Ones(bits) - |bits|)
  {
    var w := Ordered(mode, bits);
    assert Walk(w) == 2 * Ones(bits) - |bits| by {
      OnesOfReverse(bits);
      WalkIsOnesMinusZeros(bits);
    }
    EndpointBound(w);
  }

  lemma EndpointBound(w: seq<Bit>)
    requires |w| > 0
    ensures MaxExcursion(w) >= AbsInt(Walk(w))
  {
    assert w[.. |w|] == w;
    ExcursionBoundsPrefixes(w, |w| - 1);
  }

  /** A constant stream has the largest possible excursion in either mode. */
  lemma ConstantStreamExcursion(t: State, bits: seq<Bit>, k: MathFunctions.Kernels)
    requires |bits| >= MINIMUM_LENGTH && forall i :: 0 <= i < |bits| ==> bits[i] == bits[0]
    ensures IsRandom(t, bits, k).cuSum == |bits|
  {
    var w := Ordered(t.mode, bits);
    assert forall i :: 0 <= i < |w| ==> w[i] == w[0];
    ConstantExcursion(w);
  }

  function Kind(mode: Mode): (r: RandomTest)
    ensures Registrable(r)
    ensures Ordinal(r) == if mode == Forward then 4 else 5
  {
    if mode == Forward then TestKinds.CumulativeSumForward else TestKinds.CumulativeSumReverse
  }
}
