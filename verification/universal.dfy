/** Maurer's "Universal Statistical" test, section 2.9 of NIST SP 800-22:
    the stream is cut into L-bit blocks; the first Q blocks initialise a
    table of last occurrences, and for each of the following K blocks the
    log2 of the distance back to the previous block with the same pattern
    is summed. */
module UniversalTest {
  import JavaLang
  import opened Ieee
  import opened TestKinds
  import opened BaseRandom
  import MathFunctions
  import BitWalk

  type Bit = JavaLang.Bit
  type Option<T> = JavaLang.Option<T>

  const MINIMUM_LENGTH: int := 387840

  /** EXPECTEDVALUE and VARIANCE, indexed by L (entries 0 .. 5 unused). */
  const EXPECTED_VALUE: seq<real> :=
    [0.0, 0.0, 0.0, 0.0, 0.0, 0.0, 5.2177052, 6.1962507, 7.1836656, 8.1764248, 9.1723243,
     10.170032, 11.168765, 12.168070, 13.167693, 14.167488, 15.167379]
  const VARIANCE: seq<real> :=
    [0.0, 0.0, 0.0, 0.0, 0.0, 0.0, 2.954, 3.125, 3.238, 3.311, 3.356, 3.384, 3.401, 3.410,
     3.416, 3.419, 3.421]

  /** The shortest stream that selects L = 6, 7, .., 16. */
  const THRESHOLDS: seq<int> :=
    [387840, 904960, 2068480, 4654080, 10342400, 22753280, 49643520, 107560960,
     231669760, 496435200, 1059061760]

  datatype State = State(
    base: TestState,
    L: int, Q: int, K: int,
    sigma: Double, phi: Double, sum: Double,
    expectedValue: real, variance: real,
    bitsDiscarded: int)

  function Cleared(base: TestState): (t: State)
    ensures t.base == base && t.L == 0 && t.Q == 0 && t.K == 0 && t.bitsDiscarded == 0
    ensures t.sigma == t.phi == t.sum == Finite(0.0) && t.expectedValue == t.variance == 0.0
  {
    State(base, 0, 0, 0, Finite(0.0), Finite(0.0), Finite(0.0), 0.0, 0.0, 0)
  }

  /** Both constructors, finalize() and Initialize() zero every field;
      only Initialize also resets the base state. */
  function New(math: Option<nat>): (t: State)
    ensures t == Cleared(BaseRandom.New(math))
  {
    Cleared(BaseRandom.New(math))
  }

  function Finalize(t: State): (r: State)
    ensures r == Cleared(t.base)
  {
    Cleared(t.base)
  }

  function Initialize(t: State): (r: State)
    ensures r == Cleared(BaseRandom.Initialize(t.base))
  {
    Cleared(BaseRandom.Initialize(t.base))
  }

  // ---------------------------------------------------------------------
  // L, Q and K

  /** The ladder of isRandom: L grows with the stream length. */
  function BlockLength(n: int): (l: int)
    requires n >= MINIMUM_LENGTH
    ensures 6 <= l <= 16
    ensures THRESHOLDS[l - 6] <= n
    ensures l < 16 ==> n < THRESHOLDS[l - 5]
  {
    if n >= 1059061760 then 16
    else if n >= 496435200 then 15
    else if n >= 231669760 then 14
    else if n >= 107560960 then 13
    else if n >= 49643520 then 12
    else if n >= 22753280 then 11
    else if n >= 10342400 then 10
    else if n >= 4654080 then 9
    else if n >= 2068480 then 8
    else if n >= 904960 then 7
    else 6
  }

  /** A longer stream never selects a shorter block. */
  lemma BlockLengthMonotone(n: int, n': int)
    requires MINIMUM_LENGTH <= n <= n'
    ensures BlockLength(n) <= BlockLength(n')
  {
    var l, l' := BlockLength(n), BlockLength(n');
    if l' < l {
      assert THRESHOLDS[l - 6] <= n <= n' < THRESHOLDS[l' - 5];
      ThresholdsIncrease(l' - 5, l - 6);
    }
  }

  lemma ThresholdsIncrease(i: int, j: int)
    requires 0 <= i <= j < |THRESHOLDS|
    ensures THRESHOLDS[i] <= THRESHOLDS[j]
  {
  }

  /** Each threshold is (Q + 1000 * 2^L) * L: exactly enough bits for Q
      initialisation blocks and 1000 * 2^L test blocks. */
  lemma ThresholdIsBlocksTimesL(l: int)
    requires 6 <= l <= 16
    ensures THRESHOLDS[l - 6] == 1010 * JavaLang.Pow2(l) * l
  {
    Pow2Table();
  }

  lemma Pow2Table()
    ensures JavaLang.Pow2(6) == 64 && JavaLang.Pow2(7) == 128 && JavaLang.Pow2(8) == 256
    ensures JavaLang.Pow2(9) == 512 && JavaLang.Pow2(10) == 1024 && JavaLang.Pow2(11) == 2048
    ensures JavaLang.Pow2(12) == 4096 && JavaLang.Pow2(13) == 8192 && JavaLang.Pow2(14) == 16384
    ensures JavaLang.Pow2(15) == 32768 && JavaLang.Pow2(16) == 65536
  {
    assert JavaLang.Pow2(2) == 4;
    assert JavaLang.Pow2(4) == 16;
    assert JavaLang.Pow2(6) == 64;
    assert JavaLang.Pow2(8) == 256;
    assert JavaLang.Pow2(10) == 1024;
    assert JavaLang.Pow2(12) == 4096;
    assert JavaLang.Pow2(14) == 16384;
  }

  /** Q = 10 * (int) Math.pow(2, L). */
  function Initial(l: nat): int {
    10 * JavaLang.Pow2(l)
  }

  /** K = n / L - Q, with L > 0 and n >= 0 so the division truncates as in Java. */
  function Tested(n: nat, l: int): int
    requires l >= 1
  {
    n / l - Initial(l)
  }

  /** Past the minimum length there are at least 1000 * 2^L test blocks. */
  lemma TestBlocksSuffice(n: nat)
    requires n >= MINIMUM_LENGTH
    ensures Tested(n, BlockLength(n)) >= 1000 * JavaLang.Pow2(BlockLength(n))
  {
    var l := BlockLength(n);
    var p := JavaLang.Pow2(l);
    ThresholdIsBlocksTimesL(l);
    assert 1010 * p * l <= n;
    QuotientAtLeast(n, l, 1010 * p);
  }

  lemma QuotientAtLeast(n: nat, l: int, c: int)
    requires l >= 1 && c * l <= n
    ensures n / l >= c
  {
    var q := n / l;
    assert n == q * l + n % l;
    if q < c {
      MulMonotone(q + 1, c, l);
    }
  }

  lemma MulMonotone(a: int, b: int, l: int)
    requires a <= b && l >= 0
    ensures a * l <= b * l
  {
  }

  /** The bits the blocks use are (Q + K) L = (n / L) L, so n mod L are
      left over. */
  lemma DiscardedIsRemainder(n: nat, l: int)
    requires l >= 1
    ensures n - (Initial(l) + Tested(n, l)) * l == n % l
  {
  }

  // ---------------------------------------------------------------------
  // Block patterns

  /** decRep after j rounds of the inner loop: the sum over j' < j of
      bit(start + j') * 2^(l - 1 - j'). */
  function DecRep(bits: seq<Bit>, start: nat, l: nat, j: nat): nat
    requires j <= l && start + l <= |bits|
  {
    if j == 0 then 0
    else DecRep(bits, start, l, j - 1) + (bits[start + j - 1] as int) * JavaLang.Pow2(l - j)
  }

  lemma {:induction false} DecRepIsWord(bits: seq<Bit>, start: nat, l: nat, j: nat)
    requires j <= l && start + l <= |bits|
    ensures DecRep(bits, start, l, j) == BitWalk.Word(bits, start, j) * JavaLang.Pow2(l - j)
  {
    if j > 0 {
      DecRepIsWord(bits, start, l, j - 1);
      var w := BitWalk.Word(bits, start, j - 1);
      var b := bits[start + j - 1] as int;
      var p := JavaLang.Pow2(l - j);
      assert JavaLang.Pow2(l - (j - 1)) == 2 * p;
      assert DecRep(bits, start, l, j) == w * (2 * p) + b * p;
      Distribute(w, b, p);
    }
  }

  lemma Distribute(w: int, b: int, p: int)
    ensures w * (2 * p) + b * p == (2 * w + b) * p
  {
  }

  /** decRep of block i (numbered from 1). */
  function Pattern(bits: seq<Bit>, l: nat, i: nat): (v: nat)
    requires 1 <= i && i * l <= |bits|
    ensures v < JavaLang.Pow2(l)
  {
    DecRepIsWord(bits, (i - 1) * l, l, l);
    BitWalk.WordBound(bits, (i - 1) * l, l);
    DecRep(bits, (i - 1) * l, l, l)
  }

  /** Blocks i and i' share a pattern exactly when they hold the same bits. */
  lemma SamePattern(bits: seq<Bit>, l: nat, i: nat, i': nat)
    requires 1 <= i && i * l <= |bits| && 1 <= i' && i' * l <= |bits|
    ensures Pattern(bits, l, i) == Pattern(bits, l, i')
            <==> bits[(i - 1) * l .. i * l] == bits[(i' - 1) * l .. i' * l]
  {
    var a, a' := (i - 1) * l, (i' - 1) * l;
    assert a + l == i * l && a' + l == i' * l;
    DecRepIsWord(bits, a, l, l);
    DecRepIsWord(bits, a', l, l);
    assert Pattern(bits, l, i) == BitWalk.Word(bits, a, l) && Pattern(bits, l, i') == BitWalk.Word(bits, a', l);
    BitWalk.WordInjective(bits, a, a', l);
  }

  // ---------------------------------------------------------------------
  // The table of last occurrences and the distances

  /** The table T and the distances i - T[decRep] summed so far. */
  datatype Scan = Scan(table: seq<int>, dists: seq<int>)

  /** new int[n]. */
  function Zeros(n: nat): (z: seq<int>)
    ensures |z| == n && forall i :: 0 <= i < n ==> z[i] == 0
  {
    if n == 0 then [] else Zeros(n - 1) + [0]
  }

  /** Both loops over blocks 1 .. i: blocks up to q only record
      themselves in T, later blocks first contribute their distance. */
  function Process(bits: seq<Bit>, l: nat, q: nat, i: nat): (sc: Scan)
    requires i * l <= |bits|
    ensures |sc.table| == JavaLang.Pow2(l)
    ensures |sc.dists| == if i <= q then 0 else i - q
  {
    if i == 0 then Scan(Zeros(JavaLang.Pow2(l)), [])
    else
      assert (i - 1) * l <= i * l;
      var prev := Process(bits, l, q, i - 1);
      var v := Pattern(bits, l, i);
      var t := prev.table[v := i];
      if i <= q then Scan(t, prev.dists) else Scan(t, prev.dists + [i - prev.table[v]])
  }

  /** T[v] is the last block up to i with pattern v, or 0 if there is none. */
  predicate LastOccurrence(bits: seq<Bit>, l: nat, i: nat, v: int, t: int)
    requires i * l <= |bits|
  {
    0 <= t <= i
    && (t > 0 ==> Pattern(bits, l, t) == v)
    && forall i' :: t < i' <= i ==> Pattern(bits, l, i') != v
  }

  lemma {:induction false} TableHoldsLastOccurrence(bits: seq<Bit>, l: nat, q: nat, i: nat, v: int)
    requires i * l <= |bits| && 0 <= v < JavaLang.Pow2(l)
    ensures LastOccurrence(bits, l, i, v, Process(bits, l, q, i).table[v])
    decreases i
  {
    if i > 0 {
      assert (i - 1) * l <= i * l;
      TableHoldsLastOccurrence(bits, l, q, i - 1, v);
    }
  }

  /** The x-th distance belongs to block i = q + 1 + x: it is positive,
      at most i, and leads back to the previous block with the same
      pattern (to 0 when there is none). */
  lemma {:induction false} DistanceToPrevious(bits: seq<Bit>, l: nat, q: nat, i: nat, x: nat)
    requires i * l <= |bits| && x < |Process(bits, l, q, i).dists|
    ensures var d := Process(bits, l, q, i).dists[x];
      var block := q + 1 + x;
      1 <= d <= block && block <= i
      && LastOccurrence(bits, l, block - 1, Pattern(bits, l, block), block - d)
    decreases i
  {
    assert (i - 1) * l <= i * l;
    var prev := Process(bits, l, q, i - 1);
    if x < |prev.dists| {
      DistanceToPrevious(bits, l, q, i - 1, x);
    } else {
      TableHoldsLastOccurrence(bits, l, q, i - 1, Pattern(bits, l, i));
    }
  }

  /** In a constant stream every block repeats the one before it, so
      every distance is 1. */
  lemma ConstantStreamDistances(bits: seq<Bit>, l: nat, q: nat, i: nat, x: nat)
    requires i * l <= |bits| && q >= 1 && x < |Process(bits, l, q, i).dists|
    requires forall j :: 0 <= j < |bits| ==> bits[j] == bits[0]
    ensures Process(bits, l, q, i).dists[x] == 1
  {
    DistanceToPrevious(bits, l, q, i, x);
    ConstantBlocksAgree(bits, l, q + 1 + x);
  }

  lemma ConstantBlocksAgree(bits: seq<Bit>, l: nat, block: nat)
    requires 2 <= block && block * l <= |bits|
    requires forall j :: 0 <= j < |bits| ==> bits[j] == bits[0]
    ensures Pattern(bits, l, block - 1) == Pattern(bits, l, block)
  {
    assert (block - 1) * l <= block * l;
    assert (block - 2) * l + l == (block - 1) * l;
    var a := bits[(block - 2) * l .. (block - 1) * l];
    var b := bits[(block - 1) * l .. block * l];
    assert forall j :: 0 <= j < l ==> a[j] == bits[0] == b[j];
    assert a == b;
    SamePattern(bits, l, block - 1, block);
  }

  /** sum of log(d) / log(2) over the distances, in order. */
  function LogSum(k: MathFunctions.Kernels, ds: seq<int>): Double {
    if |ds| == 0 then Finite(0.0)
    else Add(LogSum(k, ds[.. |ds| - 1]), Div(k.ln(Of(ds[|ds| - 1])), k.ln(Finite(2.0))))
  }

  // ---------------------------------------------------------------------
  // isRandom

  /** The distances summed for a stream of at least 387840 bits. */
  function Distances(bits: seq<Bit>): (ds: seq<int>)
    requires |bits| >= MINIMUM_LENGTH
    ensures |ds| == Tested(|bits|, BlockLength(|bits|))
  {
    var l := BlockLength(|bits|);
    TestBlocksSuffice(|bits|);
    DiscardedIsRemainder(|bits|, l);
    Process(bits, l, Initial(l), Initial(l) + Tested(|bits|, l)).dists
  }

  /** Everything isRandom derives from a stream of at least 387840 bits. */
  datatype Statistic = Statistic(
    L: int, Q: int, K: int, discarded: int,
    dists: seq<int>, sum: Double, sigma: Double, phi: Double, p: Double)

  function Measure(bits: seq<Bit>, k: MathFunctions.Kernels): (st: Statistic)
    requires |bits| >= MINIMUM_LENGTH
    ensures st.L == BlockLength(|bits|) && st.Q == Initial(st.L) && st.K == Tested(|bits|, st.L)
    ensures st.K >= 1000 * JavaLang.Pow2(st.L)
    ensures st.discarded == |bits| - (st.Q + st.K) * st.L == |bits| % st.L
    ensures st.dists == Distances(bits) && st.sum == LogSum(k, st.dists)
  {
    var n := |bits|;
    var l := BlockLength(n);
    var q := Initial(l);
    var kk := Tested(n, l);
    TestBlocksSuffice(n);
    DiscardedIsRemainder(n, l);
    assert (q + kk) * l <= n;
    var dists := Distances(bits);
    var sum := LogSum(k, dists);
    var lr := Of(l);
    var c := Add(Sub(Finite(0.7), Div(Finite(0.8), lr)),
                 Div(Mul(Add(Finite(4.0), Div(Finite(32.0), lr)), k.pow(Of(kk), Div(Finite(-3.0), lr))), Finite(15.0)));
    var sigma := Mul(c, k.sqrt(Div(Finite(VARIANCE[l]), Of(kk))));
    var phi := Div(sum, Of(kk));
    var arg := Div(Abs(Sub(phi, Finite(EXPECTED_VALUE[l]))), Mul(k.sqrt(Finite(2.0)), sigma));
    Statistic(l, q, kk, n - (q + kk) * l, dists, sum, sigma, phi, MathFunctions.ErFc(k, arg))
  }

  /** The distances isRandom sums: one per test block, each leading back
      to the previous block with the same pattern. */
  lemma MeasuredDistances(bits: seq<Bit>, x: nat)
    requires |bits| >= MINIMUM_LENGTH && x < |Distances(bits)|
    ensures 1 <= Distances(bits)[x] <= Initial(BlockLength(|bits|)) + 1 + x
    ensures LastOccurrence(bits, BlockLength(|bits|), Initial(BlockLength(|bits|)) + x,
                           Pattern(bits, BlockLength(|bits|), Initial(BlockLength(|bits|)) + 1 + x),
                           Initial(BlockLength(|bits|)) + 1 + x - Distances(bits)[x])
  {
    var l := BlockLength(|bits|);
    TestBlocksSuffice(|bits|);
    DiscardedIsRemainder(|bits|, l);
    DistanceToPrevious(bits, l, Initial(l), Initial(l) + Tested(|bits|, l), x);
  }

  /** The guard `(double) Q < 10 * Math.pow(2, L)` of isRandom. */
  predicate LOrQOutOfRangeGuard(l: nat, q: int) {
    Lt(Of(q), Mul(Finite(10.0), MathFunctions.TwoTo(l)))
  }

  /** Q is computed as exactly 10 * 2^L, so the guard never fires. */
  lemma GuardNeverFires(l: nat)
    requires l <= 16
    ensures !LOrQOutOfRangeGuard(l, Initial(l))
  {
  }

  /** isRandom(bitStream): short streams are rejected with pValue 0;
      otherwise L, Q, K and the statistics are stored, an out-of-range
      p-value sets the error, and the verdict is p >= alpha alone. */
  function IsRandom(t: State, bits: seq<Bit>, k: MathFunctions.Kernels): (r: State)
    ensures |bits| < MINIMUM_LENGTH ==>
      r == t.(base := TooShort(t.base).(pValue := Finite(0.0)))
    ensures |bits| >= MINIMUM_LENGTH ==>
      6 <= r.L <= 16 && THRESHOLDS[r.L - 6] <= |bits|
      && r.Q == 10 * JavaLang.Pow2(r.L)
      && r.K == |bits| / r.L - r.Q && r.K >= 1000 * JavaLang.Pow2(r.L)
      && r.bitsDiscarded == |bits| % r.L
      && r.expectedValue == EXPECTED_VALUE[r.L] && r.variance == VARIANCE[r.L]
      && r.sum == LogSum(k, Distances(bits))
      && r.phi == Div(r.sum, Of(r.K))
      && r.base == t.base.(pValue := Measure(bits, k).p,
                           error := if OutOfRange(Measure(bits, k).p) then PValueOutOfRange else NoError,
                           random := Passes(Measure(bits, k).p, t.base.alpha))
  {
    var n := |bits|;
    if n < MINIMUM_LENGTH then t.(base := TooShort(t.base).(pValue := Finite(0.0)))
    else
      var st := Measure(bits, k);
      var b := t.base.(error := NoError);
      GuardNeverFires(st.L);
      if LOrQOutOfRangeGuard(st.L, st.Q) then
        t.(base := b.(random := false, error := LOrQOutOfRange), L := st.L, Q := st.Q, K := st.K)
      else
        var err := if OutOfRange(st.p) then PValueOutOfRange else NoError;
        State(b.(pValue := st.p, error := err, random := Passes(st.p, b.alpha)),
              st.L, st.Q, st.K, st.sigma, st.phi, st.sum,
              EXPECTED_VALUE[st.L], VARIANCE[st.L], st.discarded)
  }

  /** The verdict ignores the range check: a p-value above 1 still passes. */
  lemma OutOfRangeStillPasses(t: State, bits: seq<Bit>, k: MathFunctions.Kernels)
    requires |bits| >= MINIMUM_LENGTH && MathFunctions.IsGreaterThanOne(Measure(bits, k).p)
    requires !Lt(Finite(1.0), t.base.alpha)
    ensures IsRandom(t, bits, k).base.random
    ensures IsRandom(t, bits, k).base.error == PValueOutOfRange
  {
  }

  function Kind(): (r: RandomTest)
    ensures Registrable(r) && Ordinal(r) == 7
  {
    TestKinds.Universal
  }
}
