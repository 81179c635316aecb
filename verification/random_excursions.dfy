/** The Random Excursions test, section 2.14 of NIST SP 800-22: the ±1
    walk is cut into excursions at its returns to zero, and for each of the
    eight states -4 .. -1, 1 .. 4 the number of excursions visiting it
    0, 1, 2, 3, 4 or 5-or-more times is compared with its expected
    distribution. */
module RandomExcursionsTest {
  import JavaLang
  import opened Ieee
  import opened TestKinds
  import opened BitWalk
  import opened BaseRandom
  import MathFunctions
  import CryptoStreams

  type Bit = JavaLang.Bit
  type Option<T> = JavaLang.Option<T>
  type Result<T> = JavaLang.Result<T>

  /** The verdict threshold is written into the test, not read from alpha. */
  const P_THRESHOLD: real := 0.01

  /** pi[|x|][k]: the probability that state x is visited k times in one
      excursion, k = 5 standing for five or more; row 0 is never read. */
  const PI: seq<seq<real>> := [
    [0.0, 0.0, 0.0, 0.0, 0.0, 0.0],
    [0.5, 0.25, 0.125, 0.0625, 0.03125, 0.03125],
    [0.75, 0.0625, 0.046875, 0.03515625, 0.0263671875, 0.0791015625],
    [0.8333333333, 0.02777777778, 0.02314814815, 0.01929012346, 0.01607510288, 0.0803755143],
    [0.875, 0.015625, 0.013671875, 0.01196289063, 0.0104675293, 0.0732727051]]

  const STATE_X: seq<int> := [-4, -3, -2, -1, 1, 2, 3, 4]

  /** The class's own field: the visit counters of the last excursion. */
  datatype State = State(base: TestState, counter: seq<int>)

  function New(): (t: State)
    ensures t.base == BaseRandom.New(JavaLang.None)
    ensures |t.counter| == 8 && forall i :: 0 <= i < 8 ==> t.counter[i] == 0
  {
    State(BaseRandom.New(JavaLang.None), [0, 0, 0, 0, 0, 0, 0, 0])
  }

  function Kind(): (r: RandomTest)
    ensures !Registrable(r) && Ordinal(r) == 13
  {
    RandomExcursions
  }

  /** GetMinimumLength() imposes no minimum. */
  function MinimumLength(): (r: int)
    ensures r == 0
  {
    0
  }

  // ---------------------------------------------------------------------
  // The walk

  /** The loop filling S_k: S_k[0] = 2 b0 - 1, S_k[i] = S_k[i - 1] + 2 b_i - 1. */
  function Sums(bits: seq<Bit>): (s: seq<int>)
    ensures |s| == |bits|
    decreases |bits|
  {
    if |bits| == 0 then []
    else if |bits| == 1 then [Step(bits[0])]
    else
      var init := Sums(bits[.. |bits| - 1]);
      init + [init[|init| - 1] + Step(bits[|bits| - 1])]
  }

  /** Each S_k[i] is the walk of the first i + 1 bits, so it is never 0 at
      position 0. */
  lemma {:induction false} SumsArePrefixes(bits: seq<Bit>)
    ensures forall i :: 0 <= i < |bits| ==> Sums(bits)[i] == Prefix(bits, i)
    ensures |bits| > 0 ==> Sums(bits)[0] != 0
    decreases |bits|
  {
    var n := |bits|;
    if n > 0 {
      FirstPrefix(bits);
    }
    if n > 1 {
      var init := bits[.. n - 1];
      SumsArePrefixes(init);
      var si := Sums(init);
      assert Sums(bits) == si + [si[n - 2] + Step(bits[n - 1])];
      forall i | 0 <= i < n - 1
        ensures Sums(bits)[i] == Prefix(bits, i)
      {
        assert bits[.. i + 1] == init[.. i + 1];
      }
      assert Sums(bits)[n - 1] == Prefix(bits, n - 1) by {
        PrefixStep(bits, n - 1);
        assert bits[.. n - 1] == init[.. n - 1];
      }
    }
  }

  lemma FirstPrefix(bits: seq<Bit>)
    requires |bits| > 0
    ensures Prefix(bits, 0) == Step(bits[0])
  {
    assert bits[.. 1][.. 0] == [];
    assert Walk(bits[.. 1]) == Walk(bits[.. 1][.. 0]) + Step(bits[0]);
  }

  // ---------------------------------------------------------------------
  // Cycles

  /** The positions 1 <= p < i where the walk is back at zero, in order. */
  function Zeros(s: seq<int>, i: nat): (z: seq<int>)
    requires i <= |s|
    ensures |z| <= i
    ensures forall j :: 0 <= j < |z| ==> 1 <= z[j] < i && s[z[j]] == 0
    ensures forall a, b :: 0 <= a < b < |z| ==> z[a] < z[b]
    ensures forall p :: 1 <= p < i && s[p] == 0 ==> p in z
  {
    if i <= 1 then [] else Zeros(s, i - 1) + (if s[i - 1] == 0 then [i - 1] else [])
  }

  /** The length of the cycle table: Math.max(1000, n / 100). */
  function Capacity(n: nat): (c: nat)
    ensures c >= 1000 && c >= n / 100 && (c == 1000 || c == n / 100)
  {
    if 1000 < n / 100 then n / 100 else 1000
  }

  /** J after the cycle-finding code: one cycle per return to zero, and
      one more when the walk does not end at zero. */
  function CycleCount(s: seq<int>): nat
    requires |s| > 0
  {
    |Zeros(s, |s|)| + (if s[|s| - 1] != 0 then 1 else 0)
  }

  /** What the cycle-finding loop ends with: the zeros it stored, or the
      early `return false` of its capacity guard. */
  datatype Scan = Scanned(zeros: seq<int>) | Abandoned

  /** The loop over positions 1 .. i - 1 as written: J is increased, the
      guard J > cycle.length is tested, and cycle[J] is stored. J reaches
      the capacity before it can exceed it, so the store throws first and
      the guard never fires. */
  function ScanAsWritten(s: seq<int>, cap: nat, i: nat): (r: Result<Scan>)
    requires 1 <= i <= |s| && cap >= 1
    ensures |Zeros(s, i)| < cap ==> r == JavaLang.Ok(Scanned(Zeros(s, i)))
    ensures |Zeros(s, i)| >= cap ==> r == JavaLang.Err(JavaLang.ArrayIndexOutOfBounds)
  {
    if i == 1 then JavaLang.Ok(Scanned([]))
    else
      assert Zeros(s, i) == Zeros(s, i - 1) + (if s[i - 1] == 0 then [i - 1] else []);
      var r := ScanAsWritten(s, cap, i - 1);
      if r.Err? then r
      else if r.value.Abandoned? then r
      else if s[i - 1] != 0 then
        assert Zeros(s, i) == Zeros(s, i - 1);
        r
      else
        var J := |r.value.zeros| + 1;
        if J > cap then JavaLang.Ok(Abandoned)
        else if J >= cap then JavaLang.Err(JavaLang.ArrayIndexOutOfBounds)
        else JavaLang.Ok(Scanned(r.value.zeros + [i - 1]))
  }

  /** The same loop with the guard J >= cycle.length, which gives up
      before any store out of bounds. */
  function ScanGuarded(s: seq<int>, cap: nat, i: nat): (r: Scan)
    requires 1 <= i <= |s| && cap >= 1
    ensures |Zeros(s, i)| < cap ==> r == Scanned(Zeros(s, i))
    ensures |Zeros(s, i)| >= cap ==> r == Abandoned
  {
    if i == 1 then Scanned([])
    else
      assert Zeros(s, i) == Zeros(s, i - 1) + (if s[i - 1] == 0 then [i - 1] else []);
      var r := ScanGuarded(s, cap, i - 1);
      if r.Abandoned? || s[i - 1] != 0 then r
      else
        var J := |r.zeros| + 1;
        if J >= cap then Abandoned
        else Scanned(r.zeros + [i - 1])
  }

  /** cycle[1 .. J]: the stored zeros with cycle[J] = n written last, which
      replaces the final zero when the walk ends at zero. */
  function Cycles(s: seq<int>): (c: seq<int>)
    requires |s| > 0
    ensures |c| == CycleCount(s)
    ensures |c| > 0 ==> c[|c| - 1] == |s|
    ensures forall j :: 0 <= j < |c| - 1 ==> c[j] == Zeros(s, |s|)[j] && s[c[j]] == 0
    ensures forall j :: 0 <= j < |c| ==> 1 <= c[j] <= |s|
  {
    var z := Zeros(s, |s|);
    if s[|s| - 1] != 0 then z + [|s|]
    else if |z| == 0 then []
    else z[.. |z| - 1] + [|s|]
  }

  /** Where excursion j (from 0) starts: 0, or one past the previous end. */
  function Start(c: seq<int>, j: int): int
    requires 0 <= j < |c|
  {
    if j == 0 then 0 else c[j - 1] + 1
  }

  /** The excursions are consecutive and cover the walk: each starts
      where the last one ended, the first at 0 and the last ends at n. */
  lemma CyclesAreOrdered(s: seq<int>)
    requires |s| > 0
    ensures forall j :: 0 <= j < |Cycles(s)| ==> 0 <= Start(Cycles(s), j) <= Cycles(s)[j]
  {
    var c := Cycles(s);
    var z := Zeros(s, |s|);
    forall j | 0 < j < |c|
      ensures c[j - 1] < c[j]
    {
      if j < |c| - 1 {
        assert z[j - 1] < z[j];
      }
    }
  }

  // ---------------------------------------------------------------------
  // Visits per excursion

  predicate IsState(x: int) {
    (1 <= x <= 4) || (-4 <= x <= -1)
  }

  /** Where the counting loop files a visit to x: x + 4 below zero,
      x + 3 above. */
  function StateIndex(x: int): int {
    if x < 0 then x + 4 else x + 3
  }

  /** The filing is a bijection between the eight states and the slots
      of counter[], and slot i holds the visits to stateX[i]. */
  lemma StateIndexIsInverse()
    ensures forall x :: IsState(x) ==> 0 <= StateIndex(x) < 8 && STATE_X[StateIndex(x)] == x
    ensures forall i :: 0 <= i < 8 ==> IsState(STATE_X[i]) && StateIndex(STATE_X[i]) == i
  {
  }

  /** counter[] after the loop over positions lo .. hi - 1 of one
      excursion. */
  function Counter(s: seq<int>, lo: int, hi: int): (c: seq<int>)
    requires 0 <= lo && hi <= |s|
    ensures |c| == 8
    ensures forall i :: 0 <= i < 8 ==> c[i] >= 0
    decreases hi - lo
  {
    if hi <= lo then [0, 0, 0, 0, 0, 0, 0, 0]
    else
      var c := Counter(s, lo, hi - 1);
      var x := s[hi - 1];
      if IsState(x) then c[StateIndex(x) := c[StateIndex(x)] + 1] else c
  }

  /** counter[i] is the number of positions in the excursion where the
      walk stands at stateX[i]. */
  lemma {:induction false} CounterCountsVisits(s: seq<int>, lo: int, hi: int)
    requires 0 <= lo <= hi <= |s|
    ensures forall i :: 0 <= i < 8 ==> Counter(s, lo, hi)[i] == multiset(s[lo .. hi])[STATE_X[i]]
    decreases hi - lo
  {
    if hi == lo {
      assert s[lo .. hi] == [];
    } else {
      CounterCountsVisits(s, lo, hi - 1);
      assert s[lo .. hi] == s[lo .. hi - 1] + [s[hi - 1]];
      StateIndexIsInverse();
    }
  }

  /** The counters of every excursion, in order. */
  function Counters(s: seq<int>, c: seq<int>): (cs: seq<seq<int>>)
    requires forall j :: 0 <= j < |c| ==> 0 <= c[j] <= |s|
    ensures |cs| == |c|
    ensures forall j :: 0 <= j < |cs| ==> |cs[j]| == 8
    ensures forall j, i :: 0 <= j < |cs| && 0 <= i < 8 ==> cs[j][i] >= 0
  {
    seq(|c|, j requires 0 <= j < |c| => Counter(s, Start(c, j), c[j]))
  }

  // ---------------------------------------------------------------------
  // The nu table

  /** The row of nu a count lands in: the count itself up to 4, row 5 for
      five or more, and no row (-1) for a negative count. */
  function Row(count: int): int {
    if 0 <= count <= 4 then count else if count >= 5 then 5 else -1
  }

  /** nu[k][i]: how many excursions put counter[i] in row k. */
  function Nu(cs: seq<seq<int>>, k: int, i: int): (v: nat)
    requires forall j :: 0 <= j < |cs| ==> |cs[j]| == 8
    requires 0 <= i < 8
    ensures v <= |cs|
  {
    if |cs| == 0 then 0
    else Nu(cs[.. |cs| - 1], k, i) + (if Row(cs[|cs| - 1][i]) == k then 1 else 0)
  }

  /** Every excursion lands in exactly one row of every column, so each
      column of nu adds up to J. */
  lemma {:induction false} NuColumnTotal(cs: seq<seq<int>>, i: int)
    requires forall j :: 0 <= j < |cs| ==> |cs[j]| == 8
    requires 0 <= i < 8
    requires forall j :: 0 <= j < |cs| ==> cs[j][i] >= 0
    ensures Nu(cs, 0, i) + Nu(cs, 1, i) + Nu(cs, 2, i) + Nu(cs, 3, i) + Nu(cs, 4, i) + Nu(cs, 5, i) == |cs|
    decreases |cs|
  {
    if |cs| > 0 {
      NuColumnTotal(cs[.. |cs| - 1], i);
    }
  }

  /** The table built from the excursions of a walk: each column of nu
      adds up to the number of excursions J. */
  lemma NuColumnsCountCycles(s: seq<int>, c: seq<int>, i: int)
    requires forall j :: 0 <= j < |c| ==> 0 <= c[j] <= |s|
    requires 0 <= i < 8
    ensures var cs := Counters(s, c);
            Nu(cs, 0, i) + Nu(cs, 1, i) + Nu(cs, 2, i) + Nu(cs, 3, i) + Nu(cs, 4, i) + Nu(cs, 5, i) == |c|
  {
    NuColumnTotal(Counters(s, c), i);
  }

  // ---------------------------------------------------------------------
  // Statistic and verdict

  /** J * pi[|x|][k]: the expected number of excursions in row k. */
  function Expected(J: int, x: int, k: int): Double
    requires IsState(x) && 0 <= k < 6
  {
    Mul(Of(J), Finite(PI[JavaLang.Abs(x)][k]))
  }

  /** The chi-square sum for state i over rows 0 .. upTo - 1, added in
      order: Math.pow(nu - expected, 2) / expected. */
  function ChiSquared(k: MathFunctions.Kernels, cs: seq<seq<int>>, i: int, upTo: nat): Double
    requires forall j :: 0 <= j < |cs| ==> |cs[j]| == 8
    requires 0 <= i < 8 && upTo <= 6
  {
    if upTo == 0 then Finite(0.0)
    else
      var e := Expected(|cs|, STATE_X[i], upTo - 1);
      Add(ChiSquared(k, cs, i, upTo - 1), Div(Square(Sub(Of(Nu(cs, upTo - 1, i)), e)), e))
  }

  /** igamc(2.5, sum / 2) for state i. */
  function PValue(k: MathFunctions.Kernels, cs: seq<seq<int>>, i: int): Double
    requires forall j :: 0 <= j < |cs| ==> |cs[j]| == 8
    requires 0 <= i < 8
  {
    MathFunctions.IGammaC(k, Finite(2.5), Div(ChiSquared(k, cs, i, 6), Finite(2.0))).0
  }

  /** Math.max on doubles: NaN when either side is NaN. */
  function MathMax(a: Double, b: Double): (r: Double)
    ensures (a.NaN? || b.NaN?) ==> r.NaN?
    ensures !a.NaN? && !b.NaN? ==> (r == a || r == b) && Ge(r, a) && Ge(r, b)
  {
    if a.NaN? || b.NaN? then NaN else if Lt(a, b) then b else a
  }

  /** max(0.005 * sqrt(n), 500): the fewest excursions the test accepts. */
  function Constraint(k: MathFunctions.Kernels, n: int): Double {
    MathMax(Mul(Finite(0.005), k.pow(Of(n), Finite(0.5))), Finite(500.0))
  }

  /** The verdict loop from state i on: each p-value is stored, the first
      one inside [0, 1] decides with p > 0.01, and when none is in range
      the test fails with the last one stored. */
  function Decide(ps: seq<Double>, i: nat): (r: (Double, bool))
    requires i < |ps|
    decreases |ps| - i
  {
    if !OutOfRange(ps[i]) then (ps[i], Gt(ps[i], Finite(P_THRESHOLD)))
    else if i + 1 == |ps| then (ps[i], false)
    else Decide(ps, i + 1)
  }

  /** State i is the first whose p-value is in range. */
  predicate DecidesAt(ps: seq<Double>, i: int) {
    0 <= i < |ps| && !OutOfRange(ps[i]) && forall j :: 0 <= j < i ==> OutOfRange(ps[j])
  }

  lemma {:induction false} DecideIsFirstInRange(ps: seq<Double>, from: nat)
    requires from < |ps|
    requires forall j :: 0 <= j < from ==> OutOfRange(ps[j])
    ensures Decide(ps, from).1 <==> exists i :: DecidesAt(ps, i) && Gt(ps[i], Finite(P_THRESHOLD))
    ensures forall i :: DecidesAt(ps, i) ==> Decide(ps, from).0 == ps[i]
    ensures (forall j :: 0 <= j < |ps| ==> OutOfRange(ps[j])) ==> Decide(ps, from) == (ps[|ps| - 1], false)
    decreases |ps| - from
  {
    if !OutOfRange(ps[from]) {
      assert DecidesAt(ps, from);
    } else if from + 1 < |ps| {
      DecideIsFirstInRange(ps, from + 1);
    }
  }

  /** The eight p-values, one per state in stateX order. */
  function PValues(k: MathFunctions.Kernels, cs: seq<seq<int>>): (ps: seq<Double>)
    requires forall j :: 0 <= j < |cs| ==> |cs[j]| == 8
    ensures |ps| == 8
  {
    seq(8, i requires 0 <= i < 8 => PValue(k, cs, i))
  }

  /** Everything after the cycle table: too few excursions fail without
      touching the state; otherwise counter[] keeps the last excursion's
      counts, pValue the deciding p-value, and the verdict is returned. */
  function Judged(t: State, s: seq<int>, c: seq<int>, k: MathFunctions.Kernels): (r: (State, bool))
    requires forall j :: 0 <= j < |c| ==> 0 <= c[j] <= |s|
  {
    if !Gt(Of(|c|), Constraint(k, |s|)) || |c| == 0 then (t, false)
    else
      var cs := Counters(s, c);
      var d := Decide(PValues(k, cs), 0);
      (State(t.base.(pValue := d.0), cs[|cs| - 1]), d.1)
  }

  /** The code after the walk is built, as written: a walk with as many
      cycles as the table has slots throws, in the loop or at the final
      store of cycle[J] = n. */
  function ExcursionsAsWritten(t: State, s: seq<int>, k: MathFunctions.Kernels): (r: Result<(State, bool)>)
    requires |s| > 0
    ensures r.Err? <==> CycleCount(s) >= Capacity(|s|)
    ensures r.Err? ==> r.exc == JavaLang.ArrayIndexOutOfBounds
  {
    var cap := Capacity(|s|);
    var scan := ScanAsWritten(s, cap, |s|);
    if scan.Err? then JavaLang.Err(scan.exc)
    else if scan.value.Abandoned? then JavaLang.Ok((t, false))
    else if CycleCount(s) >= cap then JavaLang.Err(JavaLang.ArrayIndexOutOfBounds)
    else JavaLang.Ok(Judged(t, s, Cycles(s), k))
  }

  /** The same code with the guard J >= cycle.length, applied in the loop
      and before the final store: a walk with too many cycles fails
      instead of throwing. */
  function Excursions(t: State, s: seq<int>, k: MathFunctions.Kernels): (r: (State, bool))
    requires |s| > 0
    ensures CycleCount(s) >= Capacity(|s|) ==> r == (t, false)
    ensures r.0.base == t.base.(pValue := r.0.base.pValue)
  {
    var cap := Capacity(|s|);
    if ScanGuarded(s, cap, |s|).Abandoned? || CycleCount(s) >= cap then (t, false)
    else Judged(t, s, Cycles(s), k)
  }

  /** isRandom(stream) exactly as written: an empty stream throws at
      S_k[0]. */
  function IsRandomAsWritten(t: State, bits: seq<Bit>, k: MathFunctions.Kernels): (r: Result<(State, bool)>)
    ensures |bits| == 0 ==> r == JavaLang.Err(JavaLang.ArrayIndexOutOfBounds)
    ensures |bits| > 0 ==> (r.Err? <==> CycleCount(Sums(bits)) >= Capacity(|bits|))
    ensures r.Err? ==> r.exc == JavaLang.ArrayIndexOutOfBounds
  {
    if |bits| == 0 then JavaLang.Err(JavaLang.ArrayIndexOutOfBounds)
    else ExcursionsAsWritten(t, Sums(bits), k)
  }

  /** isRandom(stream) with the capacity guard corrected; only an empty
      stream still throws. The base state changes in its pValue alone:
      the verdict is returned, not stored. */
  function IsRandom(t: State, bits: seq<Bit>, k: MathFunctions.Kernels): (r: Result<(State, bool)>)
    ensures |bits| == 0 ==> r == JavaLang.Err(JavaLang.ArrayIndexOutOfBounds)
    ensures |bits| > 0 ==> r.Ok?
    ensures |bits| > 0 && CycleCount(Sums(bits)) >= Capacity(|bits|) ==> r == JavaLang.Ok((t, false))
    ensures r.Ok? ==> r.value.0.base == t.base.(pValue := r.value.0.base.pValue)
  {
    if |bits| == 0 then JavaLang.Err(JavaLang.ArrayIndexOutOfBounds)
    else JavaLang.Ok(Excursions(t, Sums(bits), k))
  }

  /** The exception isRandom throws on a stream with no bits. The right
      side of S_k[0] = 2 * getBitPosition(0) - 1 is evaluated before the
      store into the empty array, so a failed read of position 0 comes
      first; only when that bit is readable is the out-of-bounds store
      the one that throws. */
  function EmptyStreamThrows(heap: CryptoStreams.Heap, s: CryptoStreams.Stream): (e: JavaLang.Exception)
    requires CryptoStreams.Valid(heap, s) && CryptoStreams.GetBitLength(s) == 0
    ensures CryptoStreams.GetBit(heap, s, 0).Err? ==> e == CryptoStreams.GetBit(heap, s, 0).exc
    ensures CryptoStreams.GetBit(heap, s, 0).Ok? ==> e == JavaLang.ArrayIndexOutOfBounds
  {
    match CryptoStreams.GetBit(heap, s, 0)
    case Err(x) => x
    case Ok(_) => JavaLang.ArrayIndexOutOfBounds
  }

  /** Which exception an empty stream raises: a missing buffer gives a
      null dereference, an empty buffer an index fault, and only a buffer
      holding a byte the out-of-bounds store of IsRandom. */
  lemma EmptyStreamFaults(heap: CryptoStreams.Heap, s: CryptoStreams.Stream)
    requires CryptoStreams.Valid(heap, s) && CryptoStreams.GetBitLength(s) == 0
    ensures s.buffer.None? ==> EmptyStreamThrows(heap, s) == JavaLang.NullPointer
    ensures s.buffer.Some? && s.buffer.value.limit == 0 ==> EmptyStreamThrows(heap, s) == JavaLang.IndexOutOfBounds
    ensures EmptyStreamThrows(heap, s) == JavaLang.ArrayIndexOutOfBounds
            <==> s.buffer.Some? && s.buffer.value.limit > 0
  {
    assert CryptoStreams.GetBit(heap, s, 0).Ok? <==> CryptoStreams.BitAddressable(s, 0);
  }

  /** Where the table is large enough the two versions agree. */
  lemma AsWrittenAgreesBelowCapacity(t: State, s: seq<int>, k: MathFunctions.Kernels)
    requires |s| > 0 && CycleCount(s) < Capacity(|s|)
    ensures ExcursionsAsWritten(t, s, k) == JavaLang.Ok(Excursions(t, s, k))
  {
    var cap := Capacity(|s|);
    assert ScanAsWritten(s, cap, |s|) == JavaLang.Ok(Scanned(Zeros(s, |s|)));
    assert ScanGuarded(s, cap, |s|) == Scanned(Zeros(s, |s|));
  }

  /** Too few excursions: no more than max(0.005 sqrt(n), 500) fails and
      leaves the state as it was. */
  lemma FewCyclesFail(t: State, s: seq<int>, k: MathFunctions.Kernels)
    requires |s| > 0
    requires !Gt(Of(CycleCount(s)), Constraint(k, |s|))
    ensures Excursions(t, s, k) == (t, false)
  {
    if CycleCount(s) < Capacity(|s|) {
      assert ScanGuarded(s, Capacity(|s|), |s|) == Scanned(Zeros(s, |s|));
      assert Excursions(t, s, k) == Judged(t, s, Cycles(s), k);
    }
  }

  /** Past the constraint, the verdict is p > 0.01 for the first state
      whose p-value is in range, that p-value is stored, and counter[]
      keeps the last excursion's counters. */
  lemma JudgedDecides(t: State, s: seq<int>, c: seq<int>, k: MathFunctions.Kernels)
    requires forall j :: 0 <= j < |c| ==> 0 <= c[j] <= |s|
    requires |c| > 0 && Gt(Of(|c|), Constraint(k, |s|))
    ensures var ps := PValues(k, Counters(s, c));
            var r := Judged(t, s, c, k);
            && (r.1 <==> exists i :: DecidesAt(ps, i) && Gt(ps[i], Finite(P_THRESHOLD)))
            && (forall i :: DecidesAt(ps, i) ==> r.0.base.pValue == ps[i])
            && r.0.counter == Counters(s, c)[|c| - 1]
  {
    DecideIsFirstInRange(PValues(k, Counters(s, c)), 0);
  }

  /** The counters of the last excursion are its visits to each state. */
  lemma LastCounter(s: seq<int>, c: seq<int>)
    requires forall j :: 0 <= j < |c| ==> 0 <= c[j] <= |s|
    requires |c| > 0 && c[|c| - 1] == |s| && Start(c, |c| - 1) <= |s|
    ensures forall i :: 0 <= i < 8 ==>
      Counters(s, c)[|c| - 1][i] == multiset(s[Start(c, |c| - 1) .. |s|])[STATE_X[i]]
  {
    CounterCountsVisits(s, Start(c, |c| - 1), |s|);
  }

  /** With enough excursions and room in the table, the verdict is the one
      JudgedDecides describes. */
  lemma EnoughCyclesAreJudged(t: State, s: seq<int>, k: MathFunctions.Kernels)
    requires |s| > 0 && CycleCount(s) < Capacity(|s|)
    requires Gt(Of(CycleCount(s)), Constraint(k, |s|))
    ensures |Cycles(s)| > 0
    ensures Excursions(t, s, k) == Judged(t, s, Cycles(s), k)
  {
    assert Lt(Finite(500.0), Of(|Cycles(s)|)) by {
      assert Ge(Constraint(k, |s|), Finite(500.0));
    }
    assert ScanGuarded(s, Capacity(|s|), |s|) == Scanned(Zeros(s, |s|));
  }

  /** ... and counter[] ends up holding the last excursion's visits to
      each state. */
  lemma VerdictIsFirstInRangeState(t: State, s: seq<int>, k: MathFunctions.Kernels)
    requires |s| > 0 && CycleCount(s) < Capacity(|s|)
    requires Gt(Of(CycleCount(s)), Constraint(k, |s|))
    ensures var c := Cycles(s);
            && |c| > 0
            && forall i :: 0 <= i < 8 ==>
                 Excursions(t, s, k).0.counter[i] == multiset(s[Start(c, |c| - 1) .. |s|])[STATE_X[i]]
  {
    var c := Cycles(s);
    EnoughCyclesAreJudged(t, s, k);
    JudgedDecides(t, s, c, k);
    CyclesAreOrdered(s);
    LastCounter(s, c);
  }

  // ---------------------------------------------------------------------
  // The capacity guard on an alternating stream

  /** 0, 1, 0, 1, ...: the walk returns to zero after every second bit. */
  function Alternating(n: nat): (bits: seq<Bit>)
    ensures |bits| == n
  {
    seq(n, i => i % 2)
  }

  lemma {:induction false} AlternatingSums(n: nat)
    ensures forall i :: 0 <= i < n ==> Sums(Alternating(n))[i] == (if i % 2 == 0 then -1 else 0)
    decreases n
  {
    if n > 0 {
      AlternatingSums(n - 1);
      assert Alternating(n)[.. n - 1] == Alternating(n - 1);
    }
  }

  /** The number of returns to zero among positions 1 .. i-1. */
  function ZeroCount(s: seq<int>, i: nat): nat
    requires i <= |s|
  {
    if i <= 1 then 0 else ZeroCount(s, i - 1) + (if s[i - 1] == 0 then 1 else 0)
  }

  lemma {:induction false} ZerosCounted(s: seq<int>, i: nat)
    requires i <= |s|
    ensures |Zeros(s, i)| == ZeroCount(s, i)
    decreases i
  {
    if i > 1 {
      ZerosCounted(s, i - 1);
    }
  }

  lemma {:induction false} AlternatingZeroCount(s: seq<int>, i: nat)
    requires i <= |s|
    requires forall j :: 0 <= j < |s| ==> s[j] == (if j % 2 == 0 then -1 else 0)
    ensures ZeroCount(s, i) == i / 2
    decreases i
  {
    if i > 1 {
      AlternatingZeroCount(s, i - 1);
      assert s[i - 1] == (if (i - 1) % 2 == 0 then -1 else 0);
    }
  }

  lemma AlternatingZeros(s: seq<int>, i: nat)
    requires i <= |s|
    requires forall j :: 0 <= j < |s| ==> s[j] == (if j % 2 == 0 then -1 else 0)
    ensures |Zeros(s, i)| == i / 2
  {
    ZerosCounted(s, i);
    AlternatingZeroCount(s, i);
  }

  /** 2000 alternating bits return to zero 1000 times, exactly the size
      of the cycle table: the code as written throws where the guarded
      version fails the stream. */
  lemma AlternatingStreamOverflows(t: State, k: MathFunctions.Kernels)
    ensures IsRandomAsWritten(t, Alternating(2000), k) == JavaLang.Err(JavaLang.ArrayIndexOutOfBounds)
    ensures IsRandom(t, Alternating(2000), k) == JavaLang.Ok((t, false))
  {
    var s := Sums(Alternating(2000));
    AlternatingSums(2000);
    AlternatingZeros(s, 2000);
    assert s[1999] == 0;
    assert CycleCount(s) == 1000;
    assert Capacity(2000) == 1000;
  }
}
