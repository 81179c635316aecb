/** The Runs test, section 2.3 of NIST SP 800-22: the number of maximal
    blocks of equal bits. */
module RunsTest {
  import JavaLang
  import opened Ieee
  import opened TestKinds
  import opened BitWalk
  import opened BaseRandom
  import MathFunctions

  type Bit = JavaLang.Bit
  type Option<T> = JavaLang.Option<T>

  const MINIMUM_LENGTH: int := 100

  /** pi, totalNumberRuns and argument after the last run. */
  datatype State = State(base: TestState, pi: Double, totalNumberRuns: int, argument: Double)

  function New(math: Option<nat>): (t: State)
    ensures t.base == BaseRandom.New(math)
    ensures t.pi == Finite(0.0) && t.totalNumberRuns == 0 && t.argument == Finite(0.0)
  {
    State(BaseRandom.New(math), Finite(0.0), 0, Finite(0.0))
  }

  /** finalize() zeroes pi, totalNumberRuns and argument and leaves the base
      state as it is; Initialize() zeroes them and resets the base result. */
  function Finalize(t: State): (r: State)
    ensures r.base == t.base
    ensures r.pi == Finite(0.0) && r.totalNumberRuns == 0 && r.argument == Finite(0.0)
  {
    t.(pi := Finite(0.0), totalNumberRuns := 0, argument := Finite(0.0))
  }

  function Initialize(t: State): (r: State)
    ensures r.base == BaseRandom.Initialize(t.base) && !r.base.random && r.base.error == NoError
    ensures r.pi == Finite(0.0) && r.totalNumberRuns == 0 && r.argument == Finite(0.0)
  {
    State(BaseRandom.Initialize(t.base), Finite(0.0), 0, Finite(0.0))
  }

  // ---------------------------------------------------------------------
  // Counting runs

  /** Positions i with bits[i] != bits[i + 1]: the r[i] = 1 entries. */
  function Changes(bits: seq<Bit>): (c: nat)
    ensures |bits| > 0 ==> c <= |bits| - 1
  {
    if |bits| < 2 then 0
    else Changes(bits[.. |bits| - 1]) + (if bits[|bits| - 2] != bits[|bits| - 1] then 1 else 0)
  }

  /** V: the number of runs, one more than the number of changes. */
  function RunCount(bits: seq<Bit>): (v: nat)
    ensures |bits| > 0 ==> 1 <= v <= |bits|
  {
    if |bits| == 0 then 0 else Changes(bits) + 1
  }

  /** The two loops of isRandom: r[i] marks a change between bits i and
      i + 1, and the runs are the sum of r plus one. */
  method ObservedRuns(bits: seq<Bit>) returns (v: int)
    requires |bits| > 0
    ensures v == RunCount(bits)
  {
    var n := |bits|;
    var r := new int[n];
    var i := 0;
    while i < n - 1
      invariant 0 <= i <= n - 1
      invariant forall j :: 0 <= j < i ==> r[j] == if bits[j] == bits[j + 1] then 0 else 1
    {
      r[i] := if bits[i] == bits[i + 1] then 0 else 1;
      i := i + 1;
    }
    v := 0;
    i := 0;
    while i < n - 1
      invariant 0 <= i <= n - 1
      invariant v == Changes(bits[.. i + 1])
    {
      assert bits[.. i + 2][.. i + 1] == bits[.. i + 1];
      v := v + r[i];
      i := i + 1;
    }
    assert bits[.. n] == bits;
    v := v + 1;
  }

  /** No change anywhere exactly when every bit equals the first: V = 1
      exactly for a constant stream. */
  lemma {:induction false} NoChangesIffConstant(bits: seq<Bit>)
    requires |bits| > 0
    ensures Changes(bits) == 0 <==> forall i :: 0 <= i < |bits| ==> bits[i] == bits[0]
    decreases |bits|
  {
    if |bits| >= 2 {
      var init := bits[.. |bits| - 1];
      NoChangesIffConstant(init);
      if Changes(bits) == 0 {
        forall i | 0 <= i < |bits|
          ensures bits[i] == bits[0]
        {
          if i < |bits| - 1 {
            assert init[i] == init[0];
          }
        }
      }
      if forall i :: 0 <= i < |bits| ==> bits[i] == bits[0] {
        assert forall i :: 0 <= i < |init| ==> init[i] == init[0];
      }
    }
  }

  /** A change at every step gives the most runs, V = n, and only then. */
  lemma {:induction false} AllChangesIffAlternating(bits: seq<Bit>)
    requires |bits| > 0
    ensures Changes(bits) == |bits| - 1 <==> forall i :: 0 <= i < |bits| - 1 ==> bits[i] != bits[i + 1]
    decreases |bits|
  {
    if |bits| >= 2 {
      var init := bits[.. |bits| - 1];
      AllChangesIffAlternating(init);
      if forall i :: 0 <= i < |bits| - 1 ==> bits[i] != bits[i + 1] {
        assert forall i :: 0 <= i < |init| - 1 ==> init[i] != init[i + 1];
      }
      if Changes(bits) == |bits| - 1 {
        assert Changes(init) == |init| - 1;
        forall i | 0 <= i < |bits| - 1
          ensures bits[i] != bits[i + 1]
        {
          if i < |bits| - 2 {
            assert init[i] != init[i + 1];
          }
        }
      }
    }
  }

  /** Read back to front, a stream has the same changes. */
  lemma {:induction false} ChangesOfReverse(bits: seq<Bit>)
    ensures Changes(Reverse(bits)) == Changes(bits)
    decreases |bits|
  {
    if |bits| >= 2 {
      var rest := bits[1 ..];
      ChangesOfReverse(rest);
      var rb := Reverse(bits);
      assert rb[.. |rb| - 1] == Reverse(rest);
      ChangesOfCons(bits);
    }
  }

  /** Changes counted from the front: the first pair and the rest. */
  lemma {:induction false} ChangesOfCons(bits: seq<Bit>)
    requires |bits| >= 2
    ensures Changes(bits) == Changes(bits[1 ..]) + (if bits[0] != bits[1] then 1 else 0)
    decreases |bits|
  {
    if |bits| > 2 {
      var init := bits[.. |bits| - 1];
      ChangesOfCons(init);
      assert init[1 ..] == bits[1 ..][.. |bits| - 2];
    } else {
      assert bits[1 ..][.. 0] == [];
    }
  }

  // ---------------------------------------------------------------------
  // The statistic

  /** pi = ones / n. */
  function Proportion(bits: seq<Bit>): (pi: Double)
    requires |bits| > 0
    ensures pi.Finite? && 0.0 <= pi.v <= 1.0
  {
    Finite(Ones(bits) as real / |bits| as real)
  }

  /** pi * (1 - pi). */
  function Product(pi: Double): Double {
    Mul(pi, Sub(Finite(1.0), pi))
  }

  /** |V - 2 n pi (1 - pi)| / (2 sqrt(2 n) pi (1 - pi)). */
  function Argument(k: MathFunctions.Kernels, v: int, n: int, product: Double): Double {
    Div(Abs(Sub(Of(v), Mul(Mul(Finite(2.0), Of(n)), product))),
        Mul(Mul(Finite(2.0), k.sqrt(Mul(Finite(2.0), Of(n)))), product))
  }

  lemma ProportionExtremes(o: nat, n: nat)
    requires 0 < n && o <= n
    ensures o as real / n as real == 0.0 <==> o == 0
    ensures o as real / n as real == 1.0 <==> o == n
  {
    assert (o as real / n as real) * n as real == o as real;
  }

  lemma RealProductZero(x: real)
    ensures x * (1.0 - x) == 0.0 <==> x == 0.0 || x == 1.0
  {
    if x != 0.0 && x * (1.0 - x) == 0.0 {
      calc {
        1.0 - x;
        (1.0 / x) * x * (1.0 - x);
        (1.0 / x) * (x * (1.0 - x));
        0.0;
      }
    }
  }

  /** pi (1 - pi) is zero exactly for a constant stream. */
  lemma ProductZeroIffConstant(bits: seq<Bit>)
    requires |bits| > 0
    ensures Product(Proportion(bits)) == Finite(0.0) <==> Ones(bits) == 0 || Ones(bits) == |bits|
  {
    var pi := Proportion(bits).v;
    assert Product(Proportion(bits)) == Finite(pi * (1.0 - pi));
    ProportionExtremes(Ones(bits), |bits|);
    RealProductZero(pi);
  }

  // ---------------------------------------------------------------------
  // isRandom as written

  /** The state after the statistic, before the verdict. */
  function Measured(t: State, bits: seq<Bit>, k: MathFunctions.Kernels): (r: State)
    requires |bits| > 0
    ensures r.totalNumberRuns == RunCount(bits) && r.pi == Proportion(bits)
  {
    var pi := Proportion(bits);
    var v := RunCount(bits);
    State(t.base.(error := NoError), pi, v, Argument(k, v, |bits|, Product(pi)))
  }

  /** isRandom(stream) as the code has it: p = erfc(argument) with no
      prerequisite on pi. */
  function IsRandomAsWritten(t: State, bits: seq<Bit>, k: MathFunctions.Kernels): (r: State)
    ensures |bits| < MINIMUM_LENGTH ==> r == t.(base := TooShort(t.base))
    ensures |bits| >= MINIMUM_LENGTH ==>
      r.totalNumberRuns == RunCount(bits) && r.pi == Proportion(bits)
      && r.base.pValue == MathFunctions.ErFc(k, r.argument)
      && (r.base.random <==> Passes(r.base.pValue, t.base.alpha) && !OutOfRange(r.base.pValue))
      && r.base.error == (if OutOfRange(r.base.pValue) then PValueOutOfRange else NoError)
  {
    if |bits| < MINIMUM_LENGTH then t.(base := TooShort(t.base))
    else
      var m := Measured(t, bits, k);
      m.(base := Judge(m.base, MathFunctions.ErFc(k, m.argument)))
  }

  /** A constant stream has a single run and pi (1 - pi) = 0, so the
      argument divides by zero: erfc of an infinite (or NaN) argument is
      NaN, NaN is not below alpha and not out of range, and the stream
      passes with no error, whatever the elementary functions return. */
  lemma ConstantStreamPassesAsWritten(t: State, bits: seq<Bit>, k: MathFunctions.Kernels)
    requires |bits| >= MINIMUM_LENGTH
    requires forall i :: 0 <= i < |bits| ==> bits[i] == bits[0]
    ensures var r := IsRandomAsWritten(t, bits, k);
      r.totalNumberRuns == 1 && r.base.pValue == NaN && r.base.random && r.base.error == NoError
  {
    assert RunCount(bits) == 1 by {
      NoChangesIffConstant(bits);
    }
    assert Product(Proportion(bits)) == Finite(0.0) by {
      OnesOfConstant(bits, bits[0]);
      if bits[0] == 0 {
        assert Ones(bits) == 0;
      } else {
        assert Ones(bits) == |bits|;
      }
      ProductZeroIffConstant(bits);
    }
    OneRunPassesAsWritten(t, bits, k);
  }

  /** One run with pi (1 - pi) = 0 gives a NaN p-value, which passes. */
  lemma OneRunPassesAsWritten(t: State, bits: seq<Bit>, k: MathFunctions.Kernels)
    requires |bits| >= MINIMUM_LENGTH && RunCount(bits) == 1 && Product(Proportion(bits)) == Finite(0.0)
    ensures var r := IsRandomAsWritten(t, bits, k);
      r.totalNumberRuns == 1 && r.base.pValue == NaN && r.base.random && r.base.error == NoError
  {
    var m := Measured(t, bits, k);
    assert m.argument == Argument(k, 1, |bits|, Finite(0.0));
    ZeroProductArgument(k, 1, |bits|);
    assert MathFunctions.ErFc(k, m.argument) == NaN;
    NaNJudged(m.base, NaN);
  }

  /** With pi (1 - pi) = 0 the denominator is zero or NaN and the numerator
      the run count: the argument is never a finite number. */
  lemma ZeroProductArgument(k: MathFunctions.Kernels, v: int, n: int)
    requires v != 0
    ensures !Argument(k, v, n, Finite(0.0)).Finite?
  {
  }

  /** A NaN p-value passes and is in range. */
  lemma NaNJudged(b: TestState, p: Double)
    requires p == NaN
    ensures Judge(b, p).random && Judge(b, p).error == b.error
  {
  }

  /** The all-zero stream of length 100 is one instance. */
  lemma ZerosPassAsWritten(t: State, k: MathFunctions.Kernels)
    ensures IsRandomAsWritten(t, seq(100, _ => 0), k).base.random
  {
    ConstantStreamPassesAsWritten(t, seq(100, _ => 0), k);
  }

  // ---------------------------------------------------------------------
  // isRandom with the frequency prerequisite

  /** The prerequisite of section 2.3.4 of NIST SP 800-22, |pi - 1/2| < 2 /
      sqrt(n), in integers: (2 ones - n)^2 < 16 n. */
  predicate PrerequisiteHolds(bits: seq<Bit>) {
    var d := 2 * Ones(bits) - |bits|;
    d * d < 16 * |bits|
  }

  /** isRandom with the prerequisite: a stream that fails it gets p = 0
      and fails; otherwise as written. */
  function IsRandom(t: State, bits: seq<Bit>, k: MathFunctions.Kernels): (r: State)
    ensures |bits| < MINIMUM_LENGTH ==> r == t.(base := TooShort(t.base))
    ensures |bits| >= MINIMUM_LENGTH && !PrerequisiteHolds(bits) ==>
      r.base.pValue == Finite(0.0) && !r.base.random && r.base.error == NoError && r.pi == Proportion(bits)
    ensures |bits| >= MINIMUM_LENGTH && PrerequisiteHolds(bits) ==> r == IsRandomAsWritten(t, bits, k)
  {
    if |bits| < MINIMUM_LENGTH then t.(base := TooShort(t.base))
    else if !PrerequisiteHolds(bits) then
      var m := Measured(t, bits, k);
      m.(base := m.base.(pValue := Finite(0.0), random := false))
    else IsRandomAsWritten(t, bits, k)
  }

  /** With the prerequisite a constant stream fails. */
  lemma ConstantStreamFails(t: State, bits: seq<Bit>, k: MathFunctions.Kernels)
    requires |bits| >= MINIMUM_LENGTH
    requires forall i :: 0 <= i < |bits| ==> bits[i] == bits[0]
    ensures !IsRandom(t, bits, k).base.random
  {
    OnesOfConstant(bits, bits[0]);
    ExtremeFailsPrerequisite(Ones(bits), |bits|);
  }

  /** No ones or all ones put (2 ones - n)^2 at n^2, beyond 16 n once
      n >= 16. */
  lemma ExtremeFailsPrerequisite(o: int, n: int)
    requires n >= 16
    ensures o == 0 || o == n ==> (2 * o - n) * (2 * o - n) >= 16 * n
  {
    assert n * n >= 16 * n;
  }

  /** Past the prerequisite pi (1 - pi) is positive, so with a finite
      positive sqrt(2 n) the argument is a finite number and erfc never sees
      an infinity. */
  lemma PrerequisiteKeepsArgumentFinite(t: State, bits: seq<Bit>, k: MathFunctions.Kernels)
    requires |bits| >= MINIMUM_LENGTH && PrerequisiteHolds(bits)
    requires k.sqrt(Mul(Finite(2.0), Of(|bits|))).Finite? && k.sqrt(Mul(Finite(2.0), Of(|bits|))).v > 0.0
    ensures Product(Proportion(bits)).Finite? && Product(Proportion(bits)).v > 0.0
    ensures IsRandom(t, bits, k).argument.Finite?
  {
    var n := |bits|;
    var o := Ones(bits);
    ExtremeFailsPrerequisite(o, n);
    ProductZeroIffConstant(bits);
    var pi := Proportion(bits).v;
    assert 0.0 < pi < 1.0 by {
      assert pi * n as real == o as real;
    }
    assert pi * (1.0 - pi) > 0.0;
  }

  function Kind(): (r: RandomTest)
    ensures Registrable(r) && Ordinal(r) == 2
  {
    TestKinds.Runs
  }
}
