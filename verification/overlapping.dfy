/** OverlappingTemplateMatchings, after section 2.8 of NIST SP 800-22, as
    this class implements it: the template is m ones, m being the stream's
    own bit length; N = blockLength / 1032 blocks of M = 1032 bits are
    scanned with a window that slides one bit after a hit as after a miss;
    each block's hit count W is tallied into nu[min(W, 5)]. The tallies nu
    and the probabilities pi are instance fields: pi is recomputed by every
    evaluation, nu keeps growing across evaluations. */
module OverlappingTest {
  import JavaLang
  import opened Ieee
  import opened CryptoStreams
  import opened BaseRandom
  import MathFunctions

  type Bit = JavaLang.Bit
  type Option<T> = JavaLang.Option<T>
  type Result<T> = JavaLang.Result<T>

  /** The block length M. */
  const M: int := 1032
  /** The degrees of freedom K; nu and pi have K + 1 entries. */
  const K: int := 5

  /** The values pi holds before the first evaluation. */
  const INITIAL_PI: seq<Double> :=
    [Finite(0.364091), Finite(0.185659), Finite(0.139381), Finite(0.100571), Finite(0.0704323), Finite(0.139865)]

  datatype State = State(base: TestState, nu: seq<int>, pi: seq<Double>)

  /** What every evaluation keeps: K + 1 non-negative tallies and K + 1
      probabilities. */
  predicate Reachable(t: State) {
    |t.nu| == K + 1 && |t.pi| == K + 1 && forall i :: 0 <= i < |t.nu| ==> t.nu[i] >= 0
  }

  function New(math: Option<nat>): (t: State)
    ensures t.base == BaseRandom.New(math) && Reachable(t)
    ensures forall i :: 0 <= i <= K ==> t.nu[i] == 0
    ensures t.pi == INITIAL_PI
  {
    State(BaseRandom.New(math), [0, 0, 0, 0, 0, 0], INITIAL_PI)
  }

  // ---------------------------------------------------------------------
  // The scan, as the code reads the stream

  /** The exception a failed GetBitPosition raises on this stream. */
  function ReadFault(s: Stream): JavaLang.Exception {
    if s.buffer.None? then JavaLang.NullPointer else JavaLang.IndexOutOfBounds
  }

  /** The k loop at window position pos: reads all m bits, without a
      break, and reports whether every one of them is 1. */
  function WindowOnes(heap: Heap, s: Stream, m: nat, pos: int, k: nat): (r: Result<bool>)
    requires Valid(heap, s) && k <= m
    ensures r.Err? ==> r.exc == ReadFault(s)
    decreases m - k
  {
    if k == m then JavaLang.Ok(true)
    else
      var b :- GetBit(heap, s, pos + k);
      var rest :- WindowOnes(heap, s, m, pos, k + 1);
      JavaLang.Ok(b == 1 && rest)
  }

  /** The j loop over block `start`, from window j on: W_obs. */
  function BlockWindows(heap: Heap, s: Stream, m: nat, start: int, j: int): (r: Result<nat>)
    requires Valid(heap, s)
    ensures r.Err? ==> r.exc == ReadFault(s)
    decreases M - m + 1 - j
  {
    if j >= M - m + 1 then JavaLang.Ok(0)
    else
      var hit :- WindowOnes(heap, s, m, start + j, 0);
      var rest :- BlockWindows(heap, s, m, start, j + 1);
      JavaLang.Ok(rest + if hit then 1 else 0)
  }

  /** W_obs of the first `count` blocks, in block order. */
  function BlockTallies(heap: Heap, s: Stream, m: nat, count: nat): (r: Result<seq<nat>>)
    requires Valid(heap, s)
    ensures r.Ok? ==> |r.value| == count
    ensures r.Err? ==> r.exc == ReadFault(s)
  {
    if count == 0 then JavaLang.Ok([])
    else
      var before :- BlockTallies(heap, s, m, count - 1);
      var w :- BlockWindows(heap, s, m, (count - 1) * M, 0);
      JavaLang.Ok(before + [w])
  }

  // ---------------------------------------------------------------------
  // The same scan over a sequence of bits

  /** bits[i] == 1 for i in pos + k .. pos + m - 1. */
  predicate OnesFrom(bits: seq<Bit>, pos: int, k: nat, m: nat) {
    (k < m ==> 0 <= pos + k && pos + m <= |bits|)
    && forall i :: pos + k <= i < pos + m ==> bits[i] == 1
  }

  /** The m-bit window at pos is all ones (the empty window always is). */
  predicate AllOnes(bits: seq<Bit>, pos: int, m: nat) {
    OnesFrom(bits, pos, 0, m)
  }

  /** The number of windows j' >= j of block `start` that are all ones. */
  function OnesWindows(bits: seq<Bit>, m: nat, start: int, j: int): nat
    decreases M - m + 1 - j
  {
    if j >= M - m + 1 then 0
    else OnesWindows(bits, m, start, j + 1) + if AllOnes(bits, start + j, m) then 1 else 0
  }

  /** W_obs of each of the first `count` blocks. */
  function OnesTallies(bits: seq<Bit>, m: nat, count: nat): (ws: seq<nat>)
    ensures |ws| == count
  {
    seq(count, i => OnesWindows(bits, m, i * M, 0))
  }

  /** A block has M - m + 1 windows, so W_obs never exceeds that. */
  lemma {:induction false} WindowsBound(bits: seq<Bit>, m: nat, start: int, j: int)
    requires j <= M - m + 1
    ensures OnesWindows(bits, m, start, j) <= M - m + 1 - j
    decreases M - m + 1 - j
  {
    if j < M - m + 1 {
      WindowsBound(bits, m, start, j + 1);
    }
  }

  /** In a block of ones every window is a hit: W_obs = M - m + 1. */
  lemma {:induction false} OnesBlockHitsEverywhere(bits: seq<Bit>, m: nat, start: nat, j: nat)
    requires start + M <= |bits| && j <= M - m + 1
    requires forall i :: start <= i < start + M ==> bits[i] == 1
    ensures OnesWindows(bits, m, start, j) == M - m + 1 - j
    decreases M - m + 1 - j
  {
    if j < M - m + 1 {
      assert AllOnes(bits, start + j, m);
      OnesBlockHitsEverywhere(bits, m, start, j + 1);
    }
  }

  /** In a block of zeros no window of a non-empty template is a hit. */
  lemma {:induction false} ZerosBlockHitsNowhere(bits: seq<Bit>, m: nat, start: nat, j: nat)
    requires m >= 1 && start + M <= |bits| && j >= 0
    requires forall i :: start <= i < start + M ==> bits[i] == 0
    ensures OnesWindows(bits, m, start, j) == 0
    decreases M - m + 1 - j
  {
    if j < M - m + 1 {
      assert bits[start + j] == 0;
      ZerosBlockHitsNowhere(bits, m, start, j + 1);
    }
  }

  // ---------------------------------------------------------------------
  // What the scan reads

  /** With the bits the stream yields, a window reads as all-ones exactly
      when those bits are. */
  lemma {:induction false} WindowReadsBits(heap: Heap, s: Stream, bits: seq<Bit>, m: nat, pos: int, k: nat)
    requires Valid(heap, s) && k <= m && 0 <= pos && pos + m <= |bits|
    requires ReadsAs(heap, s, bits)
    ensures WindowOnes(heap, s, m, pos, k) == JavaLang.Ok(OnesFrom(bits, pos, k, m))
    decreases m - k, 1
  {
    if k < m {
      WindowReadsStep(heap, s, bits, m, pos, k);
    }
  }

  /** One step of the k loop: bit pos + k, then the rest of the window. */
  lemma {:induction false} WindowReadsStep(heap: Heap, s: Stream, bits: seq<Bit>, m: nat, pos: int, k: nat)
    requires Valid(heap, s) && k < m && 0 <= pos && pos + m <= |bits|
    requires ReadsAs(heap, s, bits)
    ensures WindowOnes(heap, s, m, pos, k) == JavaLang.Ok(OnesFrom(bits, pos, k, m))
    decreases m - k, 0
  {
    WindowReadsBits(heap, s, bits, m, pos, k + 1);
    WindowJoin(heap, s, bits, m, pos, k, bits[pos + k]);
  }

  /** Bit pos + k in front of the rest of the window. */
  lemma WindowJoin(heap: Heap, s: Stream, bits: seq<Bit>, m: nat, pos: int, k: nat, b: Bit)
    requires Valid(heap, s) && k < m && 0 <= pos && pos + m <= |bits| && b == bits[pos + k]
    requires ReadsAs(heap, s, bits)
    requires WindowOnes(heap, s, m, pos, k + 1) == JavaLang.Ok(OnesFrom(bits, pos, k + 1, m))
    ensures WindowOnes(heap, s, m, pos, k) == JavaLang.Ok(OnesFrom(bits, pos, k, m))
  {
    WindowOnesStep(heap, s, m, pos, k, b);
    OnesFromStep(bits, pos, k, m);
  }

  /** One step of the k loop once the bit read is known. */
  lemma WindowOnesStep(heap: Heap, s: Stream, m: nat, pos: int, k: nat, b: Bit)
    requires Valid(heap, s) && k < m && GetBit(heap, s, pos + k) == JavaLang.Ok(b)
    ensures WindowOnes(heap, s, m, pos, k)
      == (if WindowOnes(heap, s, m, pos, k + 1).Ok?
          then JavaLang.Ok(b == 1 && WindowOnes(heap, s, m, pos, k + 1).value)
          else WindowOnes(heap, s, m, pos, k + 1))
  {
  }

  lemma OnesFromStep(bits: seq<Bit>, pos: int, k: nat, m: nat)
    requires k < m && 0 <= pos && pos + m <= |bits|
    ensures OnesFrom(bits, pos, k, m) == (bits[pos + k] == 1 && OnesFrom(bits, pos, k + 1, m))
  {
  }

  /** Every window inside `bits` reads as all-ones exactly where it is. */
  predicate WindowsRead(heap: Heap, s: Stream, bits: seq<Bit>, m: nat)
    requires Valid(heap, s)
  {
    forall p {:trigger WindowOnes(heap, s, m, p, 0)} :: 0 <= p && p + m <= |bits| ==>
      WindowOnes(heap, s, m, p, 0) == JavaLang.Ok(AllOnes(bits, p, m))
  }

  lemma ReadsGiveWindows(heap: Heap, s: Stream, bits: seq<Bit>, m: nat)
    requires Valid(heap, s) && ReadsAs(heap, s, bits)
    ensures WindowsRead(heap, s, bits, m)
  {
    forall p | 0 <= p && p + m <= |bits|
      ensures WindowOnes(heap, s, m, p, 0) == JavaLang.Ok(AllOnes(bits, p, m))
    {
      WindowReadsBits(heap, s, bits, m, p, 0);
    }
  }

  /** One step of the j loop once the window's outcome is known. */
  lemma BlockWindowsStep(heap: Heap, s: Stream, m: nat, start: int, j: int, hit: bool)
    requires Valid(heap, s) && j < M - m + 1
    requires WindowOnes(heap, s, m, start + j, 0) == JavaLang.Ok(hit)
    ensures BlockWindows(heap, s, m, start, j)
      == (if BlockWindows(heap, s, m, start, j + 1).Ok?
          then JavaLang.Ok(BlockWindows(heap, s, m, start, j + 1).value + if hit then 1 else 0)
          else BlockWindows(heap, s, m, start, j + 1))
  {
  }

  lemma ReadsStep(heap: Heap, s: Stream, bits: seq<Bit>, m: nat, start: nat, j: nat)
    requires Valid(heap, s) && start + M <= |bits| && j < M - m + 1
    requires WindowsRead(heap, s, bits, m)
    requires BlockWindows(heap, s, m, start, j + 1) == JavaLang.Ok(OnesWindows(bits, m, start, j + 1))
    ensures BlockWindows(heap, s, m, start, j) == JavaLang.Ok(OnesWindows(bits, m, start, j))
  {
    var hit := AllOnes(bits, start + j, m);
    assert WindowOnes(heap, s, m, start + j, 0) == JavaLang.Ok(hit);
    BlockWindowsStep(heap, s, m, start, j, hit);
  }

  lemma {:induction false} BlockReadsBits(heap: Heap, s: Stream, bits: seq<Bit>, m: nat, start: nat, j: nat)
    requires Valid(heap, s) && start + M <= |bits|
    requires WindowsRead(heap, s, bits, m)
    ensures BlockWindows(heap, s, m, start, j) == JavaLang.Ok(OnesWindows(bits, m, start, j))
    decreases M - m + 1 - j
  {
    if j < M - m + 1 {
      BlockReadsBits(heap, s, bits, m, start, j + 1);
      ReadsStep(heap, s, bits, m, start, j);
    }
  }

  lemma {:induction false} TalliesReadBits(heap: Heap, s: Stream, bits: seq<Bit>, m: nat, count: nat)
    requires Valid(heap, s) && count * M <= |bits|
    requires WindowsRead(heap, s, bits, m)
    ensures BlockTallies(heap, s, m, count) == JavaLang.Ok(OnesTallies(bits, m, count))
    decreases count
  {
    if count > 0 {
      TalliesReadBits(heap, s, bits, m, count - 1);
      BlockReadsBits(heap, s, bits, m, (count - 1) * M, 0);
      TalliesJoin(heap, s, bits, m, count);
    }
  }

  /** The last block's W_obs appended to those before it. */
  lemma TalliesJoin(heap: Heap, s: Stream, bits: seq<Bit>, m: nat, count: nat)
    requires Valid(heap, s) && count > 0
    requires BlockTallies(heap, s, m, count - 1) == JavaLang.Ok(OnesTallies(bits, m, count - 1))
    requires BlockWindows(heap, s, m, (count - 1) * M, 0) == JavaLang.Ok(OnesWindows(bits, m, (count - 1) * M, 0))
    ensures BlockTallies(heap, s, m, count) == JavaLang.Ok(OnesTallies(bits, m, count))
  {
    OnesTalliesSnoc(bits, m, count);
  }

  lemma OnesTalliesSnoc(bits: seq<Bit>, m: nat, count: nat)
    requires count > 0
    ensures OnesTallies(bits, m, count) == OnesTallies(bits, m, count - 1) + [OnesWindows(bits, m, (count - 1) * M, 0)]
  {
    var a, b := OnesTallies(bits, m, count), OnesTallies(bits, m, count - 1) + [OnesWindows(bits, m, (count - 1) * M, 0)];
    assert forall i :: 0 <= i < count ==> a[i] == b[i];
  }

  /** The buffer's first n bits are what the window loop reads. */
  lemma BufferReads(heap: Heap, s: Stream, n: nat, m: nat)
    requires Valid(heap, s) && s.buffer.Some? && n <= 8 * s.buffer.value.limit
    ensures WindowsRead(heap, s, Bits(heap, s, n), m)
  {
    ReadsGiveWindows(heap, s, Bits(heap, s, n), m);
  }

  /** When the buffer holds the N M bits of the blocks, the scan succeeds
      and counts the all-ones windows of those bits. */
  lemma TalliesOfCoveredStream(heap: Heap, s: Stream, m: nat, count: nat)
    requires Valid(heap, s) && s.buffer.Some? && count * M <= 8 * s.buffer.value.limit
    ensures BlockTallies(heap, s, m, count) == JavaLang.Ok(OnesTallies(Bits(heap, s, count * M), m, count))
  {
    BufferReads(heap, s, count * M, m);
    TalliesReadBits(heap, s, Bits(heap, s, count * M), m, count);
  }

  // ---------------------------------------------------------------------
  // Where the scan fails

  lemma {:induction false} WindowFails(heap: Heap, s: Stream, m: nat, pos: int, k: nat, x: int)
    requires Valid(heap, s) && k <= x < m && GetBit(heap, s, pos + x).Err?
    ensures WindowOnes(heap, s, m, pos, k).Err?
    decreases m - k
  {
    if k < x {
      WindowFails(heap, s, m, pos, k + 1, x);
    }
  }

  lemma {:induction false} BlockFails(heap: Heap, s: Stream, m: nat, start: int, j: int, y: int)
    requires Valid(heap, s) && j <= y < M - m + 1 && WindowOnes(heap, s, m, start + y, 0).Err?
    ensures BlockWindows(heap, s, m, start, j).Err?
    decreases M - m + 1 - j
  {
    if j < y {
      BlockFails(heap, s, m, start, j + 1, y);
    }
  }

  /** The last window of the last block reads bit N M - 1: when that bit
      is out of reach, the scan throws. */
  lemma ScanFailsPastBuffer(heap: Heap, s: Stream, m: nat, count: nat)
    requires Valid(heap, s) && 1 <= m <= M && count >= 1
    requires !BitAddressable(s, count * M - 1)
    ensures BlockTallies(heap, s, m, count).Err?
  {
    var start := (count - 1) * M;
    assert start + (M - m) + (m - 1) == count * M - 1;
    WindowFails(heap, s, m, start + (M - m), 0, m - 1);
    BlockFails(heap, s, m, start, 0, M - m);
  }

  /** Bit p >= 0 is addressable exactly when the buffer holds p + 1 bits. */
  lemma AddressableBits(s: Stream, p: nat)
    ensures BitAddressable(s, p) <==> s.buffer.Some? && p + 1 <= 8 * s.buffer.value.limit
  {
    JavaLang.DivAgreesOnNaturals(p, 8);
  }

  /** With a template of 1 .. M ones and at least one block, the scan
      succeeds exactly when the buffer holds all N M bits. */
  lemma ScanSucceedsIff(heap: Heap, s: Stream, m: nat, count: nat)
    requires Valid(heap, s) && 1 <= m <= M && count >= 1
    ensures BlockTallies(heap, s, m, count).Ok? <==> s.buffer.Some? && count * M <= 8 * s.buffer.value.limit
  {
    AddressableBits(s, count * M - 1);
    if s.buffer.Some? && count * M <= 8 * s.buffer.value.limit {
      TalliesOfCoveredStream(heap, s, m, count);
    } else {
      ScanFailsPastBuffer(heap, s, m, count);
    }
  }

  /** The empty template reads nothing and hits at every one of the M + 1
      windows; a template longer than M fits no window. */
  lemma {:induction false} DegenerateBlocks(heap: Heap, s: Stream, m: nat, start: int, j: int)
    requires Valid(heap, s) && (m == 0 || m > M) && 0 <= j <= M + 1
    ensures BlockWindows(heap, s, m, start, j) == JavaLang.Ok(if m == 0 then M + 1 - j else 0)
    decreases M - m + 1 - j
  {
    if j < M - m + 1 {
      DegenerateBlocks(heap, s, m, start, j + 1);
    }
  }

  lemma {:induction false} DegenerateTallies(heap: Heap, s: Stream, m: nat, count: nat)
    requires Valid(heap, s) && (m == 0 || m > M)
    ensures BlockTallies(heap, s, m, count).Ok?
    ensures forall i :: 0 <= i < count ==> BlockTallies(heap, s, m, count).value[i] == if m == 0 then M + 1 else 0
    decreases count
  {
    if count > 0 {
      DegenerateTallies(heap, s, m, count - 1);
      DegenerateBlocks(heap, s, m, (count - 1) * M, 0);
    }
  }

  // ---------------------------------------------------------------------
  // The tallies nu

  /** The nu slot of a block with W_obs = w. */
  function Bucket(w: nat): (c: nat)
    ensures c <= K
    ensures c == K <==> w >= K
  {
    if w <= 4 then w else K
  }

  /** nu after nu[Bucket(W)]++ for every block. */
  function Tally(nu: seq<int>, ws: seq<nat>): (r: seq<int>)
    requires |nu| == K + 1
    ensures |r| == K + 1
  {
    if |ws| == 0 then nu
    else
      var before := Tally(nu, ws[.. |ws| - 1]);
      var c := Bucket(ws[|ws| - 1]);
      before[c := before[c] + 1]
  }

  /** How many of ws fall in slot c. */
  function InBucket(ws: seq<nat>, c: int): nat {
    if |ws| == 0 then 0
    else InBucket(ws[.. |ws| - 1], c) + if Bucket(ws[|ws| - 1]) == c then 1 else 0
  }

  function Total(xs: seq<int>): int {
    if |xs| == 0 then 0 else Total(xs[.. |xs| - 1]) + xs[|xs| - 1]
  }

  /** Every slot grows by the number of blocks that fall in it. */
  lemma {:induction false} TallyCounts(nu: seq<int>, ws: seq<nat>, c: int)
    requires |nu| == K + 1 && 0 <= c <= K
    ensures Tally(nu, ws)[c] == nu[c] + InBucket(ws, c)
    decreases |ws|
  {
    if |ws| > 0 {
      TallyCounts(nu, ws[.. |ws| - 1], c);
    }
  }

  lemma {:induction false} TotalIncrement(xs: seq<int>, c: int)
    requires 0 <= c < |xs|
    ensures Total(xs[c := xs[c] + 1]) == Total(xs) + 1
    decreases |xs|
  {
    var ys := xs[c := xs[c] + 1];
    assert ys[.. |ys| - 1] == if c < |xs| - 1 then xs[.. |xs| - 1][c := xs[c] + 1] else xs[.. |xs| - 1];
    if c < |xs| - 1 {
      TotalIncrement(xs[.. |xs| - 1], c);
    }
  }

  /** Every block is tallied exactly once: nu grows by N in total. */
  lemma {:induction false} TallyTotal(nu: seq<int>, ws: seq<nat>)
    requires |nu| == K + 1
    ensures Total(Tally(nu, ws)) == Total(nu) + |ws|
    decreases |ws|
  {
    if |ws| > 0 {
      TallyTotal(nu, ws[.. |ws| - 1]);
      TotalIncrement(Tally(nu, ws[.. |ws| - 1]), Bucket(ws[|ws| - 1]));
    }
  }

  lemma {:induction false} TallyKeepsNonNegative(nu: seq<int>, ws: seq<nat>)
    requires |nu| == K + 1 && forall i :: 0 <= i < |nu| ==> nu[i] >= 0
    ensures forall i :: 0 <= i <= K ==> Tally(nu, ws)[i] >= nu[i]
    decreases |ws|
  {
    if |ws| > 0 {
      TallyKeepsNonNegative(nu, ws[.. |ws| - 1]);
    }
  }

  // ---------------------------------------------------------------------
  // lambda, pi, chi-squared and the verdict

  /** eta = lambda / 2 with lambda = (M - m + 1) / 2^m. */
  function Eta(m: nat): Double {
    Div(Div(Of(M - m + 1), MathFunctions.TwoTo(m)), Finite(2.0))
  }

  /** pi[i] = Pr(i, eta) for i < K, and pi[K] = 1 minus their running sum. */
  function PiTable(k: MathFunctions.Kernels, eta: Double): (pi: seq<Double>)
    ensures |pi| == K + 1
    ensures forall i :: 0 <= i < K ==> pi[i] == MathFunctions.PrOf(k, i, eta)
  {
    var p := seq(K, i requires 0 <= i < K => MathFunctions.PrOf(k, i, eta));
    var sum := Add(Add(Add(Add(Add(Finite(0.0), p[0]), p[1]), p[2]), p[3]), p[4]);
    p + [Sub(Finite(1.0), sum)]
  }

  /** When the five probabilities are finite the table sums to 1. */
  lemma PiTableSumsToOne(k: MathFunctions.Kernels, eta: Double)
    requires forall i :: 0 <= i < K ==> MathFunctions.PrOf(k, i, eta).Finite?
    ensures var pi := PiTable(k, eta);
      Add(Add(Add(Add(Add(pi[0], pi[1]), pi[2]), pi[3]), pi[4]), pi[5]) == Finite(1.0)
  {
    assert MathFunctions.PrOf(k, 0, eta).Finite? && MathFunctions.PrOf(k, 1, eta).Finite? && MathFunctions.PrOf(k, 2, eta).Finite?;
    assert MathFunctions.PrOf(k, 3, eta).Finite? && MathFunctions.PrOf(k, 4, eta).Finite?;
  }

  /** sum over i of (nu[i] - N pi[i])^2 / (N pi[i]). */
  function ChiSquared(nu: seq<int>, n: int, pi: seq<Double>, i: nat): Double
    requires |nu| == |pi| && i <= |nu|
    decreases i
  {
    if i == 0 then Finite(0.0)
    else
      var expected := Mul(Of(n), pi[i - 1]);
      var d := Sub(Of(nu[i - 1]), expected);
      Add(ChiSquared(nu, n, pi, i - 1), Div(Square(d), expected))
  }

  /** pValue = igamc(K / 2, chi^2 / 2). */
  function PValue(k: MathFunctions.Kernels, nu: seq<int>, n: int, pi: seq<Double>): Double
    requires |nu| == |pi|
  {
    MathFunctions.IGammaC(k, Finite(K as real / 2.0), Div(ChiSquared(nu, n, pi, |nu|), Finite(2.0))).0
  }

  /** The blocks the loop scans: N = n / M, none when N <= 0. */
  function Blocks(n: int): (c: nat)
    ensures n >= 0 ==> c * M <= n < (c + 1) * M
    ensures n < 0 ==> c == 0
  {
    if n < 0 then 0
    else
      JavaLang.DivAgreesOnNaturals(n, M);
      n / M
  }

  /** isRandom(stream): the new instance state and the returned verdict,
      or the exception the code throws. */
  function IsRandom(t: State, heap: Heap, s: Stream, k: MathFunctions.Kernels): (r: Result<(State, bool)>)
    requires Valid(heap, s) && Reachable(t)
    ensures GetBitLength(s) < 0 ==> r == JavaLang.Err(JavaLang.NegativeArraySize)
    ensures GetBitLength(s) >= 0 ==>
      (r.Ok? <==> BlockTallies(heap, s, GetBitLength(s), Blocks(t.base.blockLength)).Ok?)
    ensures r.Err? ==> GetBitLength(s) < 0 || r.exc == ReadFault(s)
    ensures r.Ok? ==>
      var u := r.value.0;
      Reachable(u)
      && Total(u.nu) == Total(t.nu) + Blocks(t.base.blockLength)
      && u.nu == Tally(t.nu, BlockTallies(heap, s, GetBitLength(s), Blocks(t.base.blockLength)).value)
      && u.pi == PiTable(k, Eta(GetBitLength(s)))
      && u.base == t.base.(pValue := PValue(k, u.nu, JavaLang.Div(t.base.blockLength, M), u.pi))
      && (r.value.1 <==> Gt(u.base.pValue, Finite(ALPHA)))
  {
    var m := GetBitLength(s);
    if m < 0 then JavaLang.Err(JavaLang.NegativeArraySize)
    else
      var n := JavaLang.Div(t.base.blockLength, M);
      var pi := PiTable(k, Eta(m));
      var ws :- BlockTallies(heap, s, m, Blocks(t.base.blockLength));
      var nu := Tally(t.nu, ws);
      TallyTotal(t.nu, ws);
      TallyKeepsNonNegative(t.nu, ws);
      var p := PValue(k, nu, n, pi);
      JavaLang.Ok((State(t.base.(pValue := p), nu, pi), Gt(p, Finite(ALPHA))))
  }

  /** With a template of 1 .. M ones, at least one block and no exception,
      the buffer held every bit of the blocks, and nu grew by the tallies
      of those bits. */
  lemma ScannedStreamTallies(t: State, heap: Heap, s: Stream, k: MathFunctions.Kernels)
    requires Valid(heap, s) && Reachable(t)
    requires 1 <= GetBitLength(s) <= M && Blocks(t.base.blockLength) >= 1
    ensures IsRandom(t, heap, s, k).Ok? <==>
      s.buffer.Some? && Blocks(t.base.blockLength) * M <= 8 * s.buffer.value.limit
    ensures IsRandom(t, heap, s, k).Ok? ==>
      IsRandom(t, heap, s, k).value.0.nu
      == Tally(t.nu, OnesTallies(Bits(heap, s, Blocks(t.base.blockLength) * M), GetBitLength(s), Blocks(t.base.blockLength)))
  {
    var count := Blocks(t.base.blockLength);
    ScanSucceedsIff(heap, s, GetBitLength(s), count);
    if s.buffer.Some? && count * M <= 8 * s.buffer.value.limit {
      TalliesOfCoveredStream(heap, s, GetBitLength(s), count);
    }
  }

  /** The empty template (a stream of bit length 0) reads nothing: every
      block has M + 1 hits and lands in the last slot. */
  lemma EmptyTemplateFillsLastSlot(t: State, heap: Heap, s: Stream, k: MathFunctions.Kernels)
    requires Valid(heap, s) && Reachable(t) && GetBitLength(s) == 0
    ensures IsRandom(t, heap, s, k).Ok?
    ensures IsRandom(t, heap, s, k).value.0.nu[K] == t.nu[K] + Blocks(t.base.blockLength)
    ensures forall c :: 0 <= c < K ==> IsRandom(t, heap, s, k).value.0.nu[c] == t.nu[c]
  {
    var count := Blocks(t.base.blockLength);
    DegenerateTallies(heap, s, 0, count);
    var ws := BlockTallies(heap, s, 0, count).value;
    forall c | 0 <= c <= K
      ensures Tally(t.nu, ws)[c] == t.nu[c] + (if c == K then count else 0)
    {
      TallyCounts(t.nu, ws, c);
      AllInLastSlot(ws, c);
    }
  }

  lemma {:induction false} AllInLastSlot(ws: seq<nat>, c: int)
    requires forall i :: 0 <= i < |ws| ==> ws[i] >= K
    ensures InBucket(ws, c) == if c == K then |ws| else 0
    decreases |ws|
  {
    if |ws| > 0 {
      AllInLastSlot(ws[.. |ws| - 1], c);
    }
  }

  /** A stream of ones: every block of the scan hits at every window, so
      for templates of 1 .. K - 1 short of M + 1 each block lands in the
      last slot. */
  lemma OnesStreamTallies(bits: seq<Bit>, m: nat, count: nat)
    requires count * M <= |bits| && forall i :: 0 <= i < |bits| ==> bits[i] == 1
    requires m <= M + 1 - K
    ensures forall i :: 0 <= i < count ==> OnesTallies(bits, m, count)[i] == M - m + 1
    ensures InBucket(OnesTallies(bits, m, count), K) == count
  {
    forall i | 0 <= i < count
      ensures OnesTallies(bits, m, count)[i] == M - m + 1
    {
      assert i * M + M <= count * M;
      OnesBlockHitsEverywhere(bits, m, i * M, 0);
    }
    AllInLastSlot(OnesTallies(bits, m, count), K);
  }
}
