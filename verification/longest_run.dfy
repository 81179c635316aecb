/** The Test for the Longest Run of Ones in a Block, section 2.4 of NIST
    SP 800-22: each M-bit block is classified by its longest run of ones
    and the class counts are compared with fixed probabilities. */
module LongestRunTest {
  import JavaLang
  import opened Ieee
  import opened TestKinds
  import opened BaseRandom
  import MathFunctions

  type Bit = JavaLang.Bit
  type Option<T> = JavaLang.Option<T>
  type Result<T> = JavaLang.Result<T>

  const MINIMUM_LENGTH: int := 128
  /** NUMASSIGNMENTS: the size of the class-count array. */
  const NUM_ASSIGNMENTS: int := 7

  /** `assignment` becomes null after finalize. */
  datatype State = State(
    base: TestState,
    longRunCase: int,
    substringNumber: int,
    substringLength: int,
    chiSquared: real,
    assignment: Option<seq<int>>)

  /** Both constructors: seven zero class counts. */
  function New(math: Option<nat>): (t: State)
    ensures t.base == BaseRandom.New(math)
    ensures t.assignment == JavaLang.Some(seq(NUM_ASSIGNMENTS, _ => 0))
    ensures t.longRunCase == 0 && t.substringNumber == 0 && t.substringLength == 0 && t.chiSquared == 0.0
  {
    State(BaseRandom.New(math), 0, 0, 0, 0.0, JavaLang.Some(seq(NUM_ASSIGNMENTS, _ => 0)))
  }

  /** finalize(): the counters cleared and the count array dropped; the
      base state is untouched. */
  function Finalize(t: State): (r: State)
    ensures r.base == t.base && r.assignment.None?
    ensures r.longRunCase == 0 && r.substringNumber == 0 && r.substringLength == 0 && r.chiSquared == 0.0
  {
    State(t.base, 0, 0, 0, 0.0, JavaLang.None)
  }

  /** Initialize(): writes zeros into the count array, which fails with a
      NullPointerException after finalize. */
  function Initialize(t: State): (r: Result<State>)
    ensures r.Ok? <==> t.assignment.Some?
    ensures r.Err? ==> r.exc == JavaLang.NullPointer
    ensures r.Ok? ==>
      r.value.base == BaseRandom.Initialize(t.base)
      && r.value.assignment == JavaLang.Some(seq(|t.assignment.value|, _ => 0))
      && r.value.chiSquared == 0.0 && r.value.substringNumber == 0
  {
    if t.assignment.None? then JavaLang.Err(JavaLang.NullPointer)
    else
      JavaLang.Ok(State(BaseRandom.Initialize(t.base), 0, 0, 0, 0.0,
                        JavaLang.Some(seq(|t.assignment.value|, _ => 0))))
  }

  function SetLongRunCase(t: State, run: int): (r: State)
    ensures r.longRunCase == run && r.(longRunCase := t.longRunCase) == t
  {
    t.(longRunCase := run)
  }

  // ---------------------------------------------------------------------
  // The three regimes

  /** K, the block length M, the class probabilities pi[0..K] and the
      run lengths k[0..K] that bound the classes. */
  datatype Regime = Regime(K: nat, M: nat, pi: seq<real>, k: seq<int>)

  /** K + 1 classes, the first for runs up to k[0], the last for runs of
      k[K] or more, one run length each in between. */
  predicate WellFormed(g: Regime) {
    1 <= g.K && 0 < g.M && |g.pi| == g.K + 1 && |g.k| == g.K + 1
    && (forall j :: 0 <= j < |g.k| ==> g.k[j] == g.k[0] + j)
    && (forall j :: 0 <= j < |g.pi| ==> g.pi[j] > 0.0)
  }

  /** The table the length selects: below 6272 bits M = 8, below 750000
      M = 128, from there M = 10000. */
  function RegimeFor(n: int): (g: Regime)
    ensures WellFormed(g)
    ensures n < 6272 ==> g.K == 3 && g.M == 8 && g.k[0] == 1
    ensures 6272 <= n < 750000 ==> g.K == 5 && g.M == 128 && g.k[0] == 4
    ensures 750000 <= n ==> g.K == 6 && g.M == 10000 && g.k[0] == 10
  {
    if n < 6272 then
      Regime(3, 8, [0.21484375, 0.3671875, 0.23046875, 0.1875], [1, 2, 3, 4])
    else if n < 750000 then
      Regime(5, 128, [0.1174035788, 0.242955959, 0.249363483, 0.17517706, 0.102701071, 0.112398847],
             [4, 5, 6, 7, 8, 9])
    else
      Regime(6, 10000, [0.0882, 0.2092, 0.2483, 0.1933, 0.1208, 0.0675, 0.0727],
             [10, 11, 12, 13, 14, 15, 16])
  }

  function SumReals(s: seq<real>): real {
    if |s| == 0 then 0.0 else SumReals(s[.. |s| - 1]) + s[|s| - 1]
  }

  lemma SumPrefixStep(s: seq<real>, i: int)
    requires 0 < i <= |s|
    ensures SumReals(s[.. i]) == SumReals(s[.. i - 1]) + s[i - 1]
  {
    assert s[.. i][.. i - 1] == s[.. i - 1];
  }

  lemma {:induction false} SumUpTo(s: seq<real>, i: nat)
    requires i <= |s|
    ensures SumReals(s[.. i]) == if i == 0 then 0.0 else SumReals(s[.. i - 1]) + s[i - 1]
  {
    if i > 0 {
      SumPrefixStep(s, i);
    }
  }

  /** The probabilities of each table add up to 1 within 1e-8; the M = 8
      and M = 10000 tables exactly. */
  lemma RegimeProbabilitiesSumToOne(n: int)
    ensures n < 6272 || 750000 <= n ==> SumReals(RegimeFor(n).pi) == 1.0
    ensures 1.0 - 0.00000001 <= SumReals(RegimeFor(n).pi) <= 1.0
  {
    var pi := RegimeFor(n).pi;
    assert pi[.. |pi|] == pi;
    SumUpTo(pi, 0);
    SumUpTo(pi, 1);
    SumUpTo(pi, 2);
    SumUpTo(pi, 3);
    SumUpTo(pi, 4);
    if |pi| > 4 {
      SumUpTo(pi, 5);
      SumUpTo(pi, 6);
    }
    if |pi| > 6 {
      SumUpTo(pi, 7);
    }
  }

  // ---------------------------------------------------------------------
  // Longest run of ones in a block

  /** Length of the run of ones that ends the sequence. */
  function TrailingOnes(b: seq<Bit>): (r: nat)
    ensures r <= |b|
  {
    if |b| == 0 || b[|b| - 1] == 0 then 0 else TrailingOnes(b[.. |b| - 1]) + 1
  }

  /** The longest run of ones: `run` restarts at every zero and `v_n_obs`
      keeps the largest value it reached. */
  function LongestRun(b: seq<Bit>): (v: nat)
    ensures v <= |b|
  {
    if |b| == 0 then 0
    else
      var prev := LongestRun(b[.. |b| - 1]);
      var run := TrailingOnes(b);
      if run > prev then run else prev
  }

  predicate AllOnes(b: seq<Bit>, i: int, len: int)
    requires 0 <= i && 0 <= len && i + len <= |b|
  {
    forall j :: i <= j < i + len ==> b[j] == 1
  }

  /** The run that ends the sequence consists of ones, and is preceded by
      a zero when it does not cover it all. */
  lemma {:induction false} TrailingOnesAreOnes(b: seq<Bit>)
    ensures AllOnes(b, |b| - TrailingOnes(b), TrailingOnes(b))
    ensures TrailingOnes(b) < |b| ==> b[|b| - TrailingOnes(b) - 1] == 0
    decreases |b|
  {
    if |b| > 0 && b[|b| - 1] == 1 {
      TrailingOnesAreOnes(b[.. |b| - 1]);
    }
  }

  /** Any block of ones that ends the sequence is at most the trailing run. */
  lemma {:induction false} TrailingOnesIsMaximal(b: seq<Bit>, len: nat)
    requires len <= |b| && AllOnes(b, |b| - len, len)
    ensures len <= TrailingOnes(b)
    decreases |b|
  {
    if len > 0 {
      var init := b[.. |b| - 1];
      assert AllOnes(init, |init| - (len - 1), len - 1);
      TrailingOnesIsMaximal(init, len - 1);
    }
  }

  /** LongestRun is the length of a block of ones somewhere in b ... */
  lemma {:induction false} LongestRunOccurs(b: seq<Bit>) returns (i: nat)
    ensures i + LongestRun(b) <= |b| && AllOnes(b, i, LongestRun(b))
    decreases |b|
  {
    if |b| == 0 {
      i := 0;
    } else {
      var init := b[.. |b| - 1];
      var run := TrailingOnes(b);
      if run > LongestRun(init) {
        TrailingOnesAreOnes(b);
        i := |b| - run;
      } else {
        i := LongestRunOccurs(init);
        assert forall j :: i <= j < i + LongestRun(b) ==> b[j] == init[j];
      }
    }
  }

  /** ... and no longer block of ones exists. */
  lemma {:induction false} LongestRunIsMaximal(b: seq<Bit>, i: nat, len: nat)
    requires i + len <= |b| && AllOnes(b, i, len)
    ensures len <= LongestRun(b)
    decreases |b|
  {
    if i + len == |b| {
      TrailingOnesIsMaximal(b, len);
    } else {
      var init := b[.. |b| - 1];
      assert AllOnes(init, i, len);
      LongestRunIsMaximal(init, i, len);
    }
  }

  /** The inner loop over one block. */
  method ObservedLongestRun(b: seq<Bit>) returns (v: int)
    ensures v == LongestRun(b)
  {
    v := 0;
    var run := 0;
    var j := 0;
    while j < |b|
      invariant 0 <= j <= |b|
      invariant run == TrailingOnes(b[.. j]) && v == LongestRun(b[.. j])
    {
      assert b[.. j + 1][.. j] == b[.. j];
      if b[j] == 1 {
        run := run + 1;
        v := if v > run then v else run;
      } else {
        run := 0;
      }
      j := j + 1;
    }
    assert b[.. |b|] == b;
  }

  // ---------------------------------------------------------------------
  // Classes and their counts

  /** The class of a block whose longest run is v: k[0] and below share
      class 0, k[K] and above share class K. */
  function Class(g: Regime, v: int): (c: nat)
    requires WellFormed(g)
    ensures c <= g.K
    ensures 0 < c < g.K ==> v == g.k[c]
    ensures c == 0 <==> v <= g.k[0]
    ensures c == g.K <==> v >= g.k[g.K]
  {
    if v <= g.k[0] then 0 else if v >= g.k[g.K] then g.K else v - g.k[0]
  }

  function Bump(nu: seq<nat>, j: int): (r: seq<nat>)
    requires 0 <= j < |nu|
  {
    nu[j := nu[j] + 1]
  }

  /** `for (j = from; j <= K; j++) if (v == k[j]) nu[j]++`. */
  function EqualSteps(g: Regime, nu: seq<nat>, v: int, from: nat): (r: seq<nat>)
    requires WellFormed(g) && |nu| == g.K + 1 && from <= g.K + 1
    ensures |r| == |nu|
    decreases g.K + 1 - from
  {
    if from == g.K + 1 then nu
    else EqualSteps(g, if v == g.k[from] then Bump(nu, from) else nu, v, from + 1)
  }

  lemma {:induction false} EqualStepsHit(g: Regime, nu: seq<nat>, v: int, from: nat)
    requires WellFormed(g) && |nu| == g.K + 1 && from <= g.K + 1
    ensures EqualSteps(g, nu, v, from)
            == if g.k[0] + from <= v < g.k[0] + g.K + 1 then Bump(nu, v - g.k[0]) else nu
    decreases g.K + 1 - from
  {
    if from <= g.K {
      var nu' := if v == g.k[from] then Bump(nu, from) else nu;
      EqualStepsHit(g, nu', v, from + 1);
    }
  }

  /** The three updates the code makes for one block: below k[0], equal to
      some k[j], above k[K]. */
  function Tally(g: Regime, nu: seq<nat>, v: int): (r: seq<nat>)
    requires WellFormed(g) && |nu| == g.K + 1
    ensures |r| == |nu|
  {
    var nu1 := if v < g.k[0] then Bump(nu, 0) else nu;
    var nu2 := EqualSteps(g, nu1, v, 0);
    if v > g.k[g.K] then Bump(nu2, g.K) else nu2
  }

  /** Each block adds one to exactly its class: the three tests of the
      code never fire twice for one block. */
  lemma TallyCountsClass(g: Regime, nu: seq<nat>, v: int)
    requires WellFormed(g) && |nu| == g.K + 1
    ensures Tally(g, nu, v) == Bump(nu, Class(g, v))
  {
    var nu1 := if v < g.k[0] then Bump(nu, 0) else nu;
    EqualStepsHit(g, nu1, v, 0);
  }

  function SumNats(s: seq<nat>): nat {
    if |s| == 0 then 0 else SumNats(s[.. |s| - 1]) + s[|s| - 1]
  }

  lemma {:induction false} SumBump(s: seq<nat>, j: int)
    requires 0 <= j < |s|
    ensures SumNats(Bump(s, j)) == SumNats(s) + 1
    decreases |s|
  {
    var b := Bump(s, j);
    if j < |s| - 1 {
      assert b[.. |b| - 1] == Bump(s[.. |s| - 1], j);
      SumBump(s[.. |s| - 1], j);
    } else {
      assert b[.. |b| - 1] == s[.. |s| - 1];
    }
  }

  /** Block i of the stream. */
  function Block(bits: seq<Bit>, m: nat, i: nat): (b: seq<Bit>)
    requires i * m + m <= |bits|
    ensures |b| == m
  {
    bits[i * m .. i * m + m]
  }

  /** The class counts of the first `count` blocks. */
  function Counts(g: Regime, bits: seq<Bit>, count: nat): (nu: seq<nat>)
    requires WellFormed(g) && count * g.M <= |bits|
    ensures |nu| == g.K + 1
  {
    if count == 0 then seq(g.K + 1, _ => 0)
    else
      assert (count - 1) * g.M + g.M == count * g.M;
      Tally(g, Counts(g, bits, count - 1), LongestRun(Block(bits, g.M, count - 1)))
  }

  lemma SumZeros(n: nat)
    ensures SumNats(seq(n, _ => 0)) == 0
  {
    if n > 0 {
      assert seq(n, _ => 0)[.. n - 1] == seq(n - 1, _ => 0);
      SumZeros(n - 1);
    }
  }

  /** Every block is counted exactly once. */
  lemma {:induction false} CountsTotal(g: Regime, bits: seq<Bit>, count: nat)
    requires WellFormed(g) && count * g.M <= |bits|
    ensures SumNats(Counts(g, bits, count)) == count
    decreases count
  {
    if count == 0 {
      SumZeros(g.K + 1);
    } else {
      assert (count - 1) * g.M + g.M == count * g.M;
      var prev := Counts(g, bits, count - 1);
      var v := LongestRun(Block(bits, g.M, count - 1));
      CountsTotal(g, bits, count - 1);
      TallyCountsClass(g, prev, v);
      SumBump(prev, Class(g, v));
    }
  }

  // ---------------------------------------------------------------------
  // The statistic and the verdict

  /** sum over the classes of (nu_i - N pi_i)^2 / (N pi_i). */
  function ChiSquared(g: Regime, nu: seq<nat>, count: nat, upTo: nat): real
    requires WellFormed(g) && |nu| == g.K + 1 && upTo <= g.K + 1 && count > 0
  {
    if upTo == 0 then 0.0
    else
      var j := upTo - 1;
      var e := count as real * g.pi[j];
      ChiSquared(g, nu, count, j) + (nu[j] as real - e) * (nu[j] as real - e) / e
  }

  lemma {:induction false} ChiSquaredNonNegative(g: Regime, nu: seq<nat>, count: nat, upTo: nat)
    requires WellFormed(g) && |nu| == g.K + 1 && upTo <= g.K + 1 && count > 0
    ensures ChiSquared(g, nu, count, upTo) >= 0.0
    decreases upTo
  {
    if upTo > 0 {
      var j := upTo - 1;
      var e := count as real * g.pi[j];
      ChiSquaredNonNegative(g, nu, count, j);
      assert e > 0.0 by {
        PositiveProduct(count as real, g.pi[j]);
      }
      SquareOverPositive(nu[j] as real - e, e);
    }
  }

  lemma PositiveProduct(a: real, b: real)
    requires a >= 1.0 && b > 0.0
    ensures a * b > 0.0
  {
  }

  lemma SquareOverPositive(x: real, e: real)
    requires e > 0.0
    ensures x * x / e >= 0.0
  {
    assert x * x >= 0.0;
  }

  /** The assignment array after a run: the first K + 1 entries are the
      counts and the rest keep what they held. */
  function Assign(prev: seq<int>, nu: seq<nat>): (r: seq<int>)
    requires |nu| <= |prev|
    ensures |r| == |prev|
    ensures forall i :: 0 <= i < |nu| ==> r[i] == nu[i]
    ensures forall i :: |nu| <= i < |prev| ==> r[i] == prev[i]
  {
    seq(|prev|, i requires 0 <= i < |prev| => if i < |nu| then nu[i] as int else prev[i])
  }

  /** N, the class counts and chi^2 of a stream of at least 128 bits. */
  datatype Statistic = Statistic(count: nat, nu: seq<nat>, chi: real)

  function Measure(bits: seq<Bit>): (m: Statistic)
    requires |bits| >= MINIMUM_LENGTH
    ensures var g := RegimeFor(|bits|);
      m.count == |bits| / g.M && 0 < m.count && m.count * g.M <= |bits|
      && m.nu == Counts(g, bits, m.count)
      && m.chi == ChiSquared(g, m.nu, m.count, g.K + 1) && m.chi >= 0.0
  {
    var g := RegimeFor(|bits|);
    var count := |bits| / g.M;
    assert count >= 1 && count * g.M <= |bits|;
    var nu := Counts(g, bits, count);
    ChiSquaredNonNegative(g, nu, count, g.K + 1);
    Statistic(count, nu, ChiSquared(g, nu, count, g.K + 1))
  }

  /** p = igamc(K / 2, chi^2 / 2). */
  function PValue(k: MathFunctions.Kernels, bits: seq<Bit>): Double
    requires |bits| >= MINIMUM_LENGTH
  {
    MathFunctions.IGammaC(k, Finite(RegimeFor(|bits|).K as real / 2.0), Finite(Measure(bits).chi / 2.0)).0
  }

  /** isRandom(stream): the regime by length, N = floor(n / M) blocks,
      the class counts, chi^2 and p = igamc(K / 2, chi^2 / 2); the range
      check comes before the verdict. After finalize the last step, writing
      the counts, throws. */
  function IsRandom(t: State, bits: seq<Bit>, k: MathFunctions.Kernels): (r: Result<State>)
    requires t.assignment.Some? ==> |t.assignment.value| == NUM_ASSIGNMENTS
    ensures |bits| < MINIMUM_LENGTH ==> r == JavaLang.Ok(t.(base := TooShort(t.base)))
    ensures |bits| >= MINIMUM_LENGTH && t.assignment.None? ==> r == JavaLang.Err(JavaLang.NullPointer)
    ensures |bits| >= MINIMUM_LENGTH && t.assignment.Some? ==>
      r.Ok? && var g := RegimeFor(|bits|); var m := Measure(bits);
      r.value.substringLength == g.M && r.value.substringNumber == m.count
      && r.value.assignment == JavaLang.Some(Assign(t.assignment.value, m.nu))
      && r.value.chiSquared == m.chi
      && r.value.base == Judge(t.base.(error := NoError), PValue(k, bits))
  {
    if |bits| < MINIMUM_LENGTH then JavaLang.Ok(t.(base := TooShort(t.base)))
    else if t.assignment.None? then JavaLang.Err(JavaLang.NullPointer)
    else
      var g := RegimeFor(|bits|);
      var m := Measure(bits);
      JavaLang.Ok(State(Judge(t.base.(error := NoError), PValue(k, bits)), t.longRunCase, m.count, g.M, m.chi,
                        JavaLang.Some(Assign(t.assignment.value, m.nu))))
  }

  /** The recorded counts cover every block once. */
  lemma AssignmentCoversBlocks(t: State, bits: seq<Bit>, k: MathFunctions.Kernels)
    requires t.assignment.Some? && |t.assignment.value| == NUM_ASSIGNMENTS && |bits| >= MINIMUM_LENGTH
    ensures var s := IsRandom(t, bits, k).value;
      SumNats(Measure(bits).nu) == s.substringNumber
      && s.substringNumber * s.substringLength <= |bits| < (s.substringNumber + 1) * s.substringLength
  {
    var g := RegimeFor(|bits|);
    var s := IsRandom(t, bits, k).value;
    assert s.substringNumber == |bits| / g.M && s.substringLength == g.M;
    CountsTotal(g, bits, |bits| / g.M);
    JavaLang.EuclidBounds(|bits|, g.M);
  }

  function Kind(): (r: RandomTest)
    ensures Registrable(r) && Ordinal(r) == 3
  {
    TestKinds.LongestRunOfOnes
  }
}
