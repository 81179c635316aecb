/** The Frequency Test within a Block, section 2.2 of NIST SP 800-22: the
    proportion of ones in each M-bit block. */
module BlockFrequencyTest {
  import JavaLang
  import opened Ieee
  import opened TestKinds
  import opened BitWalk
  import opened BaseRandom
  import MathFunctions

  type Bit = JavaLang.Bit
  type Option<T> = JavaLang.Option<T>
  type Result<T> = JavaLang.Result<T>

  /** The inherited MINIMUMLENGTH. */
  const MINIMUM_LENGTH: int := BaseRandom.MINIMUMLENGTH
  const DEFAULT_BLOCK_LENGTH: int := 128

  datatype State = State(base: TestState, chiSquared: real, blockNumber: int, bitsDiscarded: int)

  /** Both constructors: block length 128, everything else cleared. */
  function New(math: Option<nat>): (t: State)
    ensures t.base.blockLength == DEFAULT_BLOCK_LENGTH && t.base.alpha == Finite(0.0)
    ensures t.base.error == NoError && !t.base.random && t.base.pValue == Finite(0.0)
    ensures t.chiSquared == 0.0 && t.blockNumber == 0 && t.bitsDiscarded == 0
  {
    State(BaseRandom.New(math).(blockLength := DEFAULT_BLOCK_LENGTH), 0.0, 0, 0)
  }

  /** finalize() calls the base Initialize, not the base finalize, so alpha
      and the MathematicalFunctions reference survive; it zeroes the block
      results. */
  function Finalize(t: State): (r: State)
    ensures r.base == BaseRandom.Initialize(t.base)
    ensures r.base.alpha == t.base.alpha && r.base.mathFuncs == t.base.mathFuncs
    ensures r.chiSquared == 0.0 && r.blockNumber == 0 && r.bitsDiscarded == 0
  {
    State(BaseRandom.Initialize(t.base), 0.0, 0, 0)
  }

  /** Initialize() resets the base result only: chiSquared, blockNumber and
      bitsDiscarded keep the values of the last run. */
  function Initialize(t: State): (r: State)
    ensures r.base == BaseRandom.Initialize(t.base)
    ensures r.chiSquared == t.chiSquared && r.blockNumber == t.blockNumber && r.bitsDiscarded == t.bitsDiscarded
  {
    t.(base := BaseRandom.Initialize(t.base))
  }

  /** (int) Math.floor((double) n / (double) m) for m != 0. */
  function FloorDiv(n: int, m: int): (q: int)
    requires m != 0
    ensures m > 0 ==> q == n / m
  {
    var q := (n as real / m as real).Floor;
    if m > 0 then FloorOfQuotient(n, m); q else q
  }

  lemma FloorOfQuotient(n: int, m: int)
    requires m > 0
    ensures (n as real / m as real).Floor == n / m
  {
    var q, r := n / m, n % m;
    var f := r as real / m as real;
    assert (q * m) as real == q as real * m as real;
    assert n as real == q as real * m as real + r as real;
    assert 0.0 <= f < 1.0;
    assert n as real / m as real == q as real + f;
    FloorIsUnique(n as real / m as real, q);
  }

  /** The only integer within 1 below x is its floor. */
  lemma FloorIsUnique(x: real, q: int)
    requires q as real <= x < q as real + 1.0
    ensures x.Floor == q
  {
  }

  /** Ones in block i: bits i*M .. i*M + M - 1. */
  function BlockOnes(bits: seq<Bit>, m: nat, i: nat): (c: nat)
    requires i * m + m <= |bits|
    ensures c <= m
  {
    Ones(bits[i * m .. i * m + m])
  }

  /** (pi - 1/2)^2 with pi = ones / M, as the loop computes it. */
  function Deviation(ones: nat, m: nat): real
    requires m > 0
  {
    (ones as real / m as real - 0.5) * (ones as real / m as real - 0.5)
  }

  /** (2 ones - M)^2: the same deviation scaled by 4 M^2, in integers. */
  function Excess(ones: nat, m: nat): (e: nat)
    requires ones <= m
    ensures e <= m * m
  {
    var x := 2 * ones - m;
    assert x * x <= m * m by {
      assert 0 <= (m - x) * (m + x);
    }
    x * x
  }

  lemma DeviationIsScaledExcess(ones: nat, m: nat)
    requires 0 < ones <= m || (ones == 0 && m > 0)
    ensures 4.0 * m as real * Deviation(ones, m) == Excess(ones, m) as real / m as real
  {
    var mr := m as real;
    var d := ones as real / mr - 0.5;
    assert d * (2.0 * mr) == (2 * ones - m) as real;
    var x := (2 * ones - m) as real;
    assert Excess(ones, m) as real == x * x;
    assert 4.0 * mr * (d * d) * mr == x * x;
  }

  /** Sum of the excesses of the first `count` blocks. */
  function ExcessSum(bits: seq<Bit>, m: nat, count: nat): (e: nat)
    requires count * m <= |bits|
    decreases count
  {
    if count == 0 then 0
    else
      assert (count - 1) * m + m == count * m;
      ExcessSum(bits, m, count - 1) + Excess(BlockOnes(bits, m, count - 1), m)
  }

  lemma {:induction false} ExcessSumBound(bits: seq<Bit>, m: nat, count: nat)
    requires count * m <= |bits|
    ensures ExcessSum(bits, m, count) <= count * (m * m)
    decreases count
  {
    if count > 0 {
      assert (count - 1) * m + m == count * m;
      ExcessSumBound(bits, m, count - 1);
      assert count * (m * m) == (count - 1) * (m * m) + m * m;
    }
  }

  /** chi^2 = 4 M sum (pi_i - 1/2)^2 over the whole blocks, written as
      sum (2 ones_i - M)^2 / M. */
  function ChiSquared(bits: seq<Bit>, m: nat): real
    requires m > 0
  {
    var count := |bits| / m;
    assert count * m <= |bits|;
    ExcessSum(bits, m, count) as real / m as real
  }

  lemma ScaleDown(e: nat, c: nat, m: nat)
    requires m > 0 && e <= c * (m * m)
    ensures 0.0 <= e as real / m as real <= (m * c) as real
  {
    var mr := m as real;
    assert (c * (m * m)) as real == (m * c) as real * mr;
    assert e as real <= (m * c) as real * mr;
    assert ((m * c) as real - e as real / mr) * mr >= 0.0;
  }

  /** 0 <= chi^2 <= M * blockNumber. */
  lemma ChiSquaredBounds(bits: seq<Bit>, m: nat)
    requires m > 0
    ensures 0.0 <= ChiSquared(bits, m) <= (m * (|bits| / m)) as real
  {
    var count := |bits| / m;
    assert count * m <= |bits|;
    ExcessSumBound(bits, m, count);
    ScaleDown(ExcessSum(bits, m, count), count, m);
  }

  /** Blocks that each hold exactly M/2 ones add nothing. */
  lemma {:induction false} BalancedBlocksScoreZero(bits: seq<Bit>, m: nat, count: nat)
    requires count * m <= |bits|
    requires forall i :: 0 <= i < count ==> i * m + m <= |bits| && 2 * BlockOnes(bits, m, i) == m
    ensures ExcessSum(bits, m, count) == 0
    decreases count
  {
    if count > 0 {
      assert (count - 1) * m + m == count * m;
      BalancedBlocksScoreZero(bits, m, count - 1);
      BalancedExcess(BlockOnes(bits, m, count - 1), m);
    }
  }

  /** A block holding exactly M/2 ones has no excess. */
  lemma BalancedExcess(ones: nat, m: nat)
    requires ones <= m && 2 * ones == m
    ensures Excess(ones, m) == 0
  {
  }

  /** isRandom(stream). A block length of 0 ends in the int remainder
      n % 0, an ArithmeticException; a negative one makes the block count
      negative, so no block is read. A NaN p-value is replaced by 0 with
      MathematicianNAN and a failing verdict. */
  function IsRandom(t: State, bits: seq<Bit>, k: MathFunctions.Kernels): (r: Result<State>)
    ensures |bits| < MINIMUM_LENGTH ==> r == JavaLang.Ok(t.(base := TooShort(t.base)))
    ensures |bits| >= MINIMUM_LENGTH && t.base.blockLength == 0 ==> r == JavaLang.Err(JavaLang.Arithmetic)
    ensures |bits| >= MINIMUM_LENGTH && t.base.blockLength > 0 ==>
      r.Ok? && var m := t.base.blockLength; var s := r.value;
      s.blockNumber == |bits| / m && s.bitsDiscarded == |bits| % m
      && s.chiSquared == ChiSquared(bits, m)
      && (s.base.pValue.NaN? ==> false)
      && (s.base.error == MathematicianNAN <==> s.base.pValue == Finite(0.0) && !s.base.random
                                                && MathFunctions.IGammaC(k, Finite(s.blockNumber as real / 2.0), Finite(s.chiSquared / 2.0)).0.NaN?)
      && (s.base.error != MathematicianNAN ==>
            s.base.error == NoError && (s.base.random <==> Passes(s.base.pValue, t.base.alpha)))
  {
    if |bits| < MINIMUM_LENGTH then JavaLang.Ok(t.(base := TooShort(t.base)))
    else if t.base.blockLength == 0 then JavaLang.Err(JavaLang.Arithmetic)
    else
      var m := t.base.blockLength;
      var n := |bits|;
      var blockNumber := FloorDiv(n, m);
      var chi := if m > 0 then ChiSquared(bits, m) else 0.0;
      var p := MathFunctions.IGammaC(k, Finite(blockNumber as real / 2.0), Finite(chi / 2.0)).0;
      var base := t.base.(error := NoError);
      var base := if p.NaN? then base.(pValue := Finite(0.0), error := MathematicianNAN, random := false)
                  else base.(pValue := p, random := Passes(p, t.base.alpha));
      JavaLang.Ok(State(base, chi, blockNumber, JavaLang.Rem(n, m)))
  }

  /** The blocks tested and the bits discarded partition the stream, and
      chi^2 lies between 0 (every block balanced) and M * blockNumber (every
      block constant). */
  lemma StatisticFacts(t: State, bits: seq<Bit>, k: MathFunctions.Kernels)
    requires |bits| >= MINIMUM_LENGTH && t.base.blockLength > 0
    ensures IsRandom(t, bits, k).Ok?
    ensures var s := IsRandom(t, bits, k).value; var m := t.base.blockLength;
      s.blockNumber * m + s.bitsDiscarded == |bits| && 0 <= s.bitsDiscarded < m
      && 0.0 <= s.chiSquared <= (m * s.blockNumber) as real
  {
    ChiSquaredBounds(bits, t.base.blockLength);
  }

  function Kind(): (r: RandomTest)
    ensures Registrable(r) && Ordinal(r) == 1
  {
    TestKinds.BlockFrequency
  }
}
