/** NonOverlappingTemplateMatchings, after section 2.7 of NIST SP 800-22,
    as this class implements it: the template length m is the stream's own
    bit length, n is the instance blockLength, eight blocks of M = n / 8
    bits are scanned by bit position, and only the first template is
    evaluated. The class reports through its return value alone; pValue,
    random and error are never written. */
module NonOverlappingTest {
  import JavaLang
  import opened Ieee
  import opened CryptoStreams
  import opened BaseRandom
  import MathFunctions

  type Bit = JavaLang.Bit
  type Option<T> = JavaLang.Option<T>
  type Result<T> = JavaLang.Result<T>

  /** The number of blocks. */
  const N: nat := 8
  /** The degrees of freedom K of the pi table. */
  const K: int := 5

  /** numOfTemplates: how many aperiodic templates of each length 0..21. */
  const TEMPLATE_COUNTS: seq<int> :=
    [0, 0, 2, 4, 6, 12, 20, 40, 74, 148, 284, 568, 1116,
     2232, 4424, 8848, 17622, 35244, 70340, 140680, 281076, 562152]

  /** numOfTemplates is an instance field, rewritten by every evaluation. */
  datatype State = State(base: TestState, numOfTemplates: seq<int>)

  /** What every evaluation keeps of the table: 22 non-negative counts,
      none for lengths 0 and 1. */
  predicate Reachable(t: State) {
    |t.numOfTemplates| == |TEMPLATE_COUNTS|
    && t.numOfTemplates[0] == 0 && t.numOfTemplates[1] == 0
    && forall i :: 0 <= i < |t.numOfTemplates| ==> t.numOfTemplates[i] >= 0
  }

  function New(math: Option<nat>): (t: State)
    ensures t.base == BaseRandom.New(math) && t.numOfTemplates == TEMPLATE_COUNTS
    ensures Reachable(t)
  {
    State(BaseRandom.New(math), TEMPLATE_COUNTS)
  }

  // ---------------------------------------------------------------------
  // SKIP: thinning the template count

  function Skip(count: int): (skip: int)
    ensures count < MAXNUMOFTEMPLATES ==> skip == 1
    ensures count >= MAXNUMOFTEMPLATES ==>
      skip >= 1 && skip * MAXNUMOFTEMPLATES <= count < (skip + 1) * MAXNUMOFTEMPLATES
  {
    if count < MAXNUMOFTEMPLATES then 1
    else
      JavaLang.DivAgreesOnNaturals(count, MAXNUMOFTEMPLATES);
      JavaLang.Div(count, MAXNUMOFTEMPLATES)
  }

  /** numOfTemplates[m] / SKIP, the value written back. */
  function Thinned(count: int): (c: int)
    ensures count >= 0 ==> c >= 0
  {
    JavaLang.Div(count, Skip(count))
  }

  /** A count of at least 148 thinned by SKIP lands in [1, 2 * 148). */
  lemma ThinnedRange(count: int)
    requires count >= MAXNUMOFTEMPLATES
    ensures 1 <= Thinned(count) < 2 * MAXNUMOFTEMPLATES
  {
    var s := Skip(count);
    JavaLang.DivAgreesOnNaturals(count, s);
    JavaLang.EuclidBounds(count, s);
    QuotientBelow(count, s, count / s, 2 * MAXNUMOFTEMPLATES);
  }

  /** count < q s with q the quotient bound: the quotient is positive when
      count >= s and below the bound. */
  lemma QuotientBelow(count: int, s: int, c: int, bound: int)
    requires 1 <= s <= count && c * s <= count < (c + 1) * s && count < bound * s
    ensures 1 <= c < bound
  {
    assert (bound - c) * s > 0;
    assert c * s > 0;
  }

  /** Below 2 * 148 a count is its own thinning. */
  lemma ThinnedFixed(c: int)
    requires 0 <= c < 2 * MAXNUMOFTEMPLATES
    ensures Thinned(c) == c
  {
    JavaLang.DivAgreesOnNaturals(c, Skip(c));
  }

  /** A thinned count is below 2 * 148 and stays put when thinned again, so
      the table changes on the first evaluation of a length and never after. */
  lemma ThinningSettles(count: int)
    requires count >= 0
    ensures 0 <= Thinned(count) < 2 * MAXNUMOFTEMPLATES
    ensures count >= 1 ==> Thinned(count) >= 1
    ensures Thinned(Thinned(count)) == Thinned(count)
  {
    if count >= MAXNUMOFTEMPLATES {
      ThinnedRange(count);
    } else {
      ThinnedFixed(count);
    }
    ThinnedFixed(Thinned(count));
  }

  // ---------------------------------------------------------------------
  // lambda, the guard, and the pi table

  /** lambda = (M - m + 1) / 2^m. */
  function Lambda(blockSize: int, m: int): Double
    requires m >= 0
  {
    Div(Of(blockSize - m + 1), MathFunctions.TwoTo(m))
  }

  /** The guard `isNegative(lambda) || isZero(lambda)` holds exactly when
      a block is shorter than the template, or when 2^m overflows. */
  lemma LambdaGuard(blockSize: int, m: int)
    requires m >= 0
    ensures (MathFunctions.IsNegative(Lambda(blockSize, m)) || MathFunctions.IsZero(Lambda(blockSize, m)))
            <==> (blockSize < m || m >= 1024)
  {
    if m < 1024 {
      var d := MathFunctions.TwoTo(m).v;
      var x := (blockSize - m + 1) as real;
      assert Lambda(blockSize, m) == Finite(x / d);
      if x <= 0.0 {
        assert x / d <= 0.0;
      } else {
        assert x / d > 0.0;
      }
    }
  }

  /** varWj = M (1/2^m - (2m - 1)/2^(2m)). */
  function Variance(blockSize: int, m: int): Double
    requires m >= 0
  {
    Mul(Of(blockSize), Sub(Div(Finite(1.0), MathFunctions.TwoTo(m)), Div(Of(2 * m - 1), MathFunctions.TwoTo(2 * m))))
  }

  /** exp(-lambda + i ln lambda - lgamma(i + 1)). */
  function PoissonTerm(k: MathFunctions.Kernels, lambda: Double, i: int): Double {
    k.exp(Sub(Add(Neg(lambda), Mul(Of(i), k.ln(lambda))), MathFunctions.LGamma(k, Of(i + 1)).0))
  }

  /** pi[0] = P0 + P1, pi[i - 1] = P_i for i = 2..K, pi[K] = 1 - their sum.
      The table is computed and never read afterwards. */
  function PiTable(k: MathFunctions.Kernels, lambda: Double): (pi: seq<Double>)
    ensures |pi| == K + 1
  {
    var p := seq(K + 1, i requires 0 <= i <= K => PoissonTerm(k, lambda, i));
    var first := Add(p[0], p[1]);
    var sum := Add(Add(Add(Add(first, p[2]), p[3]), p[4]), p[5]);
    [first, p[2], p[3], p[4], p[5], Sub(Finite(1.0), sum)]
  }

  /** When the Poisson terms are finite the table is a distribution: its
      six entries sum to 1. */
  lemma PiTableSumsToOne(k: MathFunctions.Kernels, lambda: Double)
    requires forall i :: 0 <= i <= K ==> PoissonTerm(k, lambda, i).Finite?
    ensures var pi := PiTable(k, lambda);
      Add(Add(Add(Add(Add(pi[0], pi[1]), pi[2]), pi[3]), pi[4]), pi[5]) == Finite(1.0)
  {
    assert PoissonTerm(k, lambda, 0).Finite? && PoissonTerm(k, lambda, 1).Finite?;
    assert PoissonTerm(k, lambda, 2).Finite? && PoissonTerm(k, lambda, 3).Finite?;
    assert PoissonTerm(k, lambda, 4).Finite? && PoissonTerm(k, lambda, 5).Finite?;
  }

  // ---------------------------------------------------------------------
  // The scan, as the code reads the stream

  /** The k loop at window position pos: compares template bits with
      GetBitPosition(pos + k) and breaks at the first difference. */
  function WindowMatches(heap: Heap, s: Stream, template: seq<int>, pos: int, k: nat): (r: Result<bool>)
    requires Valid(heap, s) && k <= |template|
    decreases |template| - k
  {
    if k == |template| then JavaLang.Ok(true)
    else
      var b :- GetBit(heap, s, pos + k);
      if template[k] != b then JavaLang.Ok(false) else WindowMatches(heap, s, template, pos, k + 1)
  }

  /** The j loop over block `start`: a hit counts and jumps past itself
      (j += m - 1, then j++), a miss moves one bit. */
  function BlockHits(heap: Heap, s: Stream, template: seq<int>, start: int, blockSize: int, j: int): (r: Result<nat>)
    requires Valid(heap, s) && |template| >= 1 && j >= 0
    decreases blockSize - |template| + 1 - j
  {
    if j >= blockSize - |template| + 1 then JavaLang.Ok(0)
    else
      var hit :- WindowMatches(heap, s, template, start + j, 0);
      if hit then
        var rest :- BlockHits(heap, s, template, start, blockSize, j + |template|);
        JavaLang.Ok(rest + 1)
      else BlockHits(heap, s, template, start, blockSize, j + 1)
  }

  /** Wj[0..count): the hits of the first `count` blocks. */
  function BlockCounts(heap: Heap, s: Stream, template: seq<int>, blockSize: int, count: nat): (r: Result<seq<nat>>)
    requires Valid(heap, s) && |template| >= 1
    ensures r.Ok? ==> |r.value| == count
  {
    if count == 0 then JavaLang.Ok([])
    else
      var before :- BlockCounts(heap, s, template, blockSize, count - 1);
      var w :- BlockHits(heap, s, template, (count - 1) * blockSize, blockSize, 0);
      JavaLang.Ok(before + [w])
  }

  // ---------------------------------------------------------------------
  // The same scan over a sequence of bits

  /** The template agrees with the bits at pos from template index k on. */
  predicate AgreeFrom(bits: seq<Bit>, template: seq<int>, pos: int, k: nat) {
    (k < |template| ==> 0 <= pos + k && pos + |template| <= |bits|)
    && forall x :: k <= x < |template| ==> template[x] == bits[pos + x]
  }

  /** The template occurs in full at pos. */
  predicate MatchAt(bits: seq<Bit>, template: seq<int>, pos: int) {
    0 <= pos && pos + |template| <= |bits| && AgreeFrom(bits, template, pos, 0)
  }

  predicate HitAt(bits: seq<Bit>, template: seq<int>, start: int, offset: int) {
    MatchAt(bits, template, start + offset)
  }

  /** The block offsets where the scan records a hit, from offset j on. */
  function HitOffsets(bits: seq<Bit>, template: seq<int>, start: nat, blockSize: int, j: nat): (hs: seq<int>)
    requires |template| >= 1 && start + blockSize <= |bits|
    decreases blockSize - |template| + 1 - j
  {
    if j >= blockSize - |template| + 1 then []
    else if MatchAt(bits, template, start + j) then [j] + HitOffsets(bits, template, start, blockSize, j + |template|)
    else HitOffsets(bits, template, start, blockSize, j + 1)
  }

  /** The recorded hits are real matches inside the block ... */
  lemma {:induction false} HitsAreMatches(bits: seq<Bit>, template: seq<int>, start: nat, blockSize: int, j: nat)
    requires |template| >= 1 && start + blockSize <= |bits|
    ensures forall x :: 0 <= x < |HitOffsets(bits, template, start, blockSize, j)| ==>
      j <= HitOffsets(bits, template, start, blockSize, j)[x] <= blockSize - |template|
      && MatchAt(bits, template, start + HitOffsets(bits, template, start, blockSize, j)[x])
    decreases blockSize - |template| + 1 - j
  {
    var m := |template|;
    if j >= blockSize - m + 1 {
    } else if MatchAt(bits, template, start + j) {
      HitsAreMatches(bits, template, start, blockSize, j + m);
      ConsHits(bits, template, start, blockSize, j, HitOffsets(bits, template, start, blockSize, j + m));
    } else {
      HitsAreMatches(bits, template, start, blockSize, j + 1);
    }
  }

  /** Prepending a match at j to matches from j + m on keeps every entry a
      match inside the block, from j on. */
  lemma ConsHits(bits: seq<Bit>, template: seq<int>, start: nat, blockSize: int, j: nat, rest: seq<int>)
    requires j <= blockSize - |template| && MatchAt(bits, template, start + j)
    requires forall x :: 0 <= x < |rest| ==>
      j + |template| <= rest[x] <= blockSize - |template| && MatchAt(bits, template, start + rest[x])
    ensures forall x :: 0 <= x < |[j] + rest| ==>
      j <= ([j] + rest)[x] <= blockSize - |template| && MatchAt(bits, template, start + ([j] + rest)[x])
  {
    var hs := [j] + rest;
    forall x | 0 <= x < |hs|
      ensures j <= hs[x] <= blockSize - |template| && MatchAt(bits, template, start + hs[x])
    {
      if x > 0 {
        assert hs[x] == rest[x - 1];
      }
    }
  }

  /** ... each at least m after the previous one, so they never overlap ... */
  lemma {:induction false} HitsAreDisjoint(bits: seq<Bit>, template: seq<int>, start: nat, blockSize: int, j: nat)
    requires |template| >= 1 && start + blockSize <= |bits|
    ensures forall x :: 0 < x < |HitOffsets(bits, template, start, blockSize, j)| ==>
      HitOffsets(bits, template, start, blockSize, j)[x - 1] + |template| <= HitOffsets(bits, template, start, blockSize, j)[x]
    decreases blockSize - |template| + 1 - j
  {
    var m := |template|;
    if j >= blockSize - m + 1 {
    } else if MatchAt(bits, template, start + j) {
      HitsAreDisjoint(bits, template, start, blockSize, j + m);
      HitsAreMatches(bits, template, start, blockSize, j + m);
      DisjointJoin(bits, template, start, blockSize, j, HitOffsets(bits, template, start, blockSize, j + m));
    } else {
      HitsAreDisjoint(bits, template, start, blockSize, j + 1);
    }
  }

  /** A hit at j in front of disjoint hits that start at j + m or later. */
  lemma DisjointJoin(bits: seq<Bit>, template: seq<int>, start: nat, blockSize: int, j: nat, rest: seq<int>)
    requires |template| >= 1 && start + blockSize <= |bits|
    requires j < blockSize - |template| + 1 && MatchAt(bits, template, start + j)
    requires rest == HitOffsets(bits, template, start, blockSize, j + |template|)
    requires forall x :: 0 <= x < |rest| ==> j + |template| <= rest[x]
    requires forall x :: 0 < x < |rest| ==> rest[x - 1] + |template| <= rest[x]
    ensures forall x :: 0 < x < |HitOffsets(bits, template, start, blockSize, j)| ==>
      HitOffsets(bits, template, start, blockSize, j)[x - 1] + |template| <= HitOffsets(bits, template, start, blockSize, j)[x]
  {
    var hs := [j] + rest;
    assert HitOffsets(bits, template, start, blockSize, j) == hs;
    forall x | 0 < x < |hs|
      ensures hs[x - 1] + |template| <= hs[x]
    {
      assert hs[x] == rest[x - 1];
      if x > 1 {
        assert hs[x - 1] == rest[x - 2];
      }
    }
  }

  /** Offset y lies inside one of the m-bit hits starting at hs. */
  predicate Covered(hs: seq<int>, y: int, m: int) {
    exists x :: 0 <= x < |hs| && hs[x] <= y < hs[x] + m
  }

  /** ... and the scan misses nothing: every match from offset j on starts
      inside a recorded hit. */
  lemma {:induction false} HitsCoverMatches(bits: seq<Bit>, template: seq<int>, start: nat, blockSize: int, j: nat)
    requires |template| >= 1 && start + blockSize <= |bits|
    ensures forall y :: j <= y <= blockSize - |template| && HitAt(bits, template, start, y) ==>
      Covered(HitOffsets(bits, template, start, blockSize, j), y, |template|)
    decreases blockSize - |template| + 1 - j
  {
    var m := |template|;
    var hs := HitOffsets(bits, template, start, blockSize, j);
    if j >= blockSize - m + 1 {
    } else if MatchAt(bits, template, start + j) {
      var rest := HitOffsets(bits, template, start, blockSize, j + m);
      HitsCoverMatches(bits, template, start, blockSize, j + m);
      assert hs == [j] + rest;
      forall y | j <= y <= blockSize - m && HitAt(bits, template, start, y)
        ensures Covered(hs, y, m)
      {
        if y < j + m {
          assert hs[0] <= y < hs[0] + m;
        } else {
          var x :| 0 <= x < |rest| && rest[x] <= y < rest[x] + m;
          assert hs[x + 1] == rest[x];
        }
      }
    } else {
      HitsCoverMatches(bits, template, start, blockSize, j + 1);
      assert !HitAt(bits, template, start, j);
    }
  }

  /** Disjoint hits of m bits fit in the block: W_obs * m <= M. */
  lemma {:induction false} HitsFitInBlock(bits: seq<Bit>, template: seq<int>, start: nat, blockSize: int, j: nat)
    requires |template| >= 1 && start + blockSize <= |bits| && j <= blockSize
    ensures |HitOffsets(bits, template, start, blockSize, j)| * |template| <= blockSize - j
    decreases blockSize - |template| + 1 - j
  {
    var m := |template|;
    if j >= blockSize - m + 1 {
    } else if MatchAt(bits, template, start + j) {
      HitsFitInBlock(bits, template, start, blockSize, j + m);
      var rest := HitOffsets(bits, template, start, blockSize, j + m);
      assert HitOffsets(bits, template, start, blockSize, j) == [j] + rest;
      OneMoreHit(|rest|, m, blockSize - j);
    } else {
      HitsFitInBlock(bits, template, start, blockSize, j + 1);
    }
  }

  /** h hits of m bits fit after the first m of `room`: h + 1 fit in it. */
  lemma OneMoreHit(h: nat, m: nat, room: int)
    requires h * m <= room - m
    ensures (h + 1) * m <= room
  {
  }

  /** When the buffer holds all 8 M bits, every read succeeds and the scan
      counts exactly the recorded hits of the bit sequence. */
  lemma {:induction false} WindowReadsBits(heap: Heap, s: Stream, bits: seq<Bit>, template: seq<int>, pos: int, k: nat)
    requires Valid(heap, s) && k <= |template| && 0 <= pos && pos + |template| <= |bits|
    requires ReadsAs(heap, s, bits)
    ensures WindowMatches(heap, s, template, pos, k) == JavaLang.Ok(AgreeFrom(bits, template, pos, k))
    decreases |template| - k
  {
    if k < |template| {
      assert GetBit(heap, s, pos + k) == JavaLang.Ok(bits[pos + k]);
      WindowReadsBits(heap, s, bits, template, pos, k + 1);
      WindowMatchesStep(heap, s, bits, template, pos, k);
    }
  }

  /** One step of the k loop once bit pos + k is known. */
  lemma WindowMatchesStep(heap: Heap, s: Stream, bits: seq<Bit>, template: seq<int>, pos: int, k: nat)
    requires Valid(heap, s) && k < |template| && 0 <= pos && pos + |template| <= |bits|
    requires GetBit(heap, s, pos + k) == JavaLang.Ok(bits[pos + k])
    requires WindowMatches(heap, s, template, pos, k + 1) == JavaLang.Ok(AgreeFrom(bits, template, pos, k + 1))
    ensures WindowMatches(heap, s, template, pos, k) == JavaLang.Ok(AgreeFrom(bits, template, pos, k))
  {
    if template[k] == bits[pos + k] {
      assert AgreeFrom(bits, template, pos, k) == AgreeFrom(bits, template, pos, k + 1);
    } else {
      assert !AgreeFrom(bits, template, pos, k);
    }
  }

  /** Every window inside `bits` reads as a match exactly where the
      template occurs. */
  predicate WindowsRead(heap: Heap, s: Stream, bits: seq<Bit>, template: seq<int>)
    requires Valid(heap, s)
  {
    forall p {:trigger WindowMatches(heap, s, template, p, 0)} :: 0 <= p && p + |template| <= |bits| ==>
      WindowMatches(heap, s, template, p, 0) == JavaLang.Ok(MatchAt(bits, template, p))
  }

  lemma ReadsGiveWindows(heap: Heap, s: Stream, bits: seq<Bit>, template: seq<int>)
    requires Valid(heap, s) && ReadsAs(heap, s, bits)
    ensures WindowsRead(heap, s, bits, template)
  {
    forall p | 0 <= p && p + |template| <= |bits|
      ensures WindowMatches(heap, s, template, p, 0) == JavaLang.Ok(MatchAt(bits, template, p))
    {
      WindowReadsBits(heap, s, bits, template, p, 0);
    }
  }

  lemma {:induction false} BlockReadsBits(heap: Heap, s: Stream, bits: seq<Bit>, template: seq<int>, start: nat, blockSize: int, j: nat)
    requires Valid(heap, s) && |template| >= 1 && start + blockSize <= |bits|
    requires WindowsRead(heap, s, bits, template)
    ensures BlockHits(heap, s, template, start, blockSize, j)
            == JavaLang.Ok(|HitOffsets(bits, template, start, blockSize, j)|)
    decreases blockSize - |template| + 1 - j
  {
    if j < blockSize - |template| + 1 {
      var next := if MatchAt(bits, template, start + j) then j + |template| else j + 1;
      BlockReadsBits(heap, s, bits, template, start, blockSize, next);
      ReadsStep(heap, s, bits, template, start, blockSize, j, next);
    }
  }

  /** The scan's count at j follows from its count at the next offset. */
  lemma ReadsStep(heap: Heap, s: Stream, bits: seq<Bit>, template: seq<int>, start: nat, blockSize: int, j: nat, next: nat)
    requires Valid(heap, s) && |template| >= 1 && start + blockSize <= |bits| && j < blockSize - |template| + 1
    requires WindowsRead(heap, s, bits, template)
    requires next == if MatchAt(bits, template, start + j) then j + |template| else j + 1
    requires BlockHits(heap, s, template, start, blockSize, next) == JavaLang.Ok(|HitOffsets(bits, template, start, blockSize, next)|)
    ensures BlockHits(heap, s, template, start, blockSize, j) == JavaLang.Ok(|HitOffsets(bits, template, start, blockSize, j)|)
  {
    var hit := MatchAt(bits, template, start + j);
    assert WindowMatches(heap, s, template, start + j, 0) == JavaLang.Ok(hit);
    BlockHitsStep(heap, s, template, start, blockSize, j, hit);
    HitOffsetsStep(bits, template, start, blockSize, j);
  }

  /** One step of HitOffsets: a match at j is recorded and the scan jumps
      by m, a miss moves one bit. */
  lemma HitOffsetsStep(bits: seq<Bit>, template: seq<int>, start: nat, blockSize: int, j: nat)
    requires |template| >= 1 && start + blockSize <= |bits| && j < blockSize - |template| + 1
    ensures MatchAt(bits, template, start + j) ==>
      |HitOffsets(bits, template, start, blockSize, j)| == |HitOffsets(bits, template, start, blockSize, j + |template|)| + 1
    ensures !MatchAt(bits, template, start + j) ==>
      HitOffsets(bits, template, start, blockSize, j) == HitOffsets(bits, template, start, blockSize, j + 1)
  {
  }

  /** One step of the j loop once the window's outcome is known. */
  lemma BlockHitsStep(heap: Heap, s: Stream, template: seq<int>, start: int, blockSize: int, j: nat, hit: bool)
    requires Valid(heap, s) && |template| >= 1 && j < blockSize - |template| + 1
    requires WindowMatches(heap, s, template, start + j, 0) == JavaLang.Ok(hit)
    ensures hit ==>
      BlockHits(heap, s, template, start, blockSize, j)
      == (if BlockHits(heap, s, template, start, blockSize, j + |template|).Ok?
          then JavaLang.Ok(BlockHits(heap, s, template, start, blockSize, j + |template|).value + 1)
          else BlockHits(heap, s, template, start, blockSize, j + |template|))
    ensures !hit ==> BlockHits(heap, s, template, start, blockSize, j) == BlockHits(heap, s, template, start, blockSize, j + 1)
  {
  }

  /** The hits of the first `count` blocks of the bit sequence. */
  function HitCounts(bits: seq<Bit>, template: seq<int>, blockSize: nat, count: nat): (w: seq<nat>)
    requires |template| >= 1 && count * blockSize <= |bits|
    ensures |w| == count
  {
    if count == 0 then []
    else
      assert (count - 1) * blockSize + blockSize == count * blockSize;
      HitCounts(bits, template, blockSize, count - 1) + [|HitOffsets(bits, template, (count - 1) * blockSize, blockSize, 0)|]
  }

  lemma {:induction false} CountsReadBits(heap: Heap, s: Stream, bits: seq<Bit>, template: seq<int>, blockSize: nat, count: nat)
    requires Valid(heap, s) && |template| >= 1 && count * blockSize <= |bits|
    requires WindowsRead(heap, s, bits, template)
    ensures BlockCounts(heap, s, template, blockSize, count) == JavaLang.Ok(HitCounts(bits, template, blockSize, count))
    decreases count
  {
    if count > 0 {
      assert (count - 1) * blockSize + blockSize == count * blockSize;
      CountsReadBits(heap, s, bits, template, blockSize, count - 1);
      BlockReadsBits(heap, s, bits, template, (count - 1) * blockSize, blockSize, 0);
    }
  }

  // ---------------------------------------------------------------------
  // isRandom

  /** sum over the blocks of ((Wj - lambda) / Math.pow(varWj, 0.5))^2. */
  function ChiSquared(k: MathFunctions.Kernels, w: seq<nat>, lambda: Double, variance: Double): Double {
    if |w| == 0 then Finite(0.0)
    else
      var z := Div(Sub(Of(w[|w| - 1]), lambda), k.pow(variance, Finite(0.5)));
      Add(ChiSquared(k, w[.. |w| - 1], lambda, variance), Square(z))
  }

  /** p = igamc(N/2, chi^2/2) for the observed counts. */
  function PValue(k: MathFunctions.Kernels, w: seq<nat>, blockSize: int, m: int): Double
    requires m >= 0
  {
    var chi := ChiSquared(k, w, Lambda(blockSize, m), Variance(blockSize, m));
    MathFunctions.IGammaC(k, Finite(N as real / 2.0), Div(chi, Finite(2.0))).0
  }

  /** The verdict on the first template: its p-value is not outside [0, 1]. */
  predicate InRange(p: Double) {
    !(MathFunctions.IsNegative(p) || MathFunctions.IsGreaterThanOne(p))
  }

  /** The evaluation reaches the table and the scan: both lengths are
      non-negative, a block holds the template, and the table has a slot
      for it. */
  predicate Scans(t: State, s: Stream) {
    t.base.blockLength >= 0 && 0 <= GetBitLength(s) <= t.base.blockLength / N
    && GetBitLength(s) < |t.numOfTemplates|
  }

  /** The table after numOfTemplates[m] /= SKIP. */
  function Thin(t: State, m: int): (u: State)
    requires 0 <= m < |t.numOfTemplates|
    ensures |u.numOfTemplates| == |t.numOfTemplates| && u.base == t.base
    ensures u.numOfTemplates[m] == Thinned(t.numOfTemplates[m])
    ensures forall x :: 0 <= x < |t.numOfTemplates| && x != m ==> u.numOfTemplates[x] == t.numOfTemplates[x]
  {
    t.(numOfTemplates := t.numOfTemplates[m := Thinned(t.numOfTemplates[m])])
  }

  /** The k loop that reads the template through GetULPosition(k), that is
      getInt(4 k), from k on to m: without a buffer the first read
      dereferences null, and the read at k throws once its four bytes pass
      the limit. The values read are the `template` parameter of IsRandom;
      only whether the reads succeed is modelled here. */
  function TemplateFault(s: Stream, k: nat, m: nat): (e: Option<JavaLang.Exception>)
    ensures e.None? <==> m <= k || (s.buffer.Some? && 4 * m <= s.buffer.value.limit)
    ensures e.Some? ==> e.value == (if s.buffer.None? then JavaLang.NullPointer else JavaLang.IndexOutOfBounds)
    decreases m - k
  {
    if m <= k then JavaLang.None
    else if s.buffer.None? then JavaLang.Some(JavaLang.NullPointer)
    else if 4 * k + 4 > s.buffer.value.limit then JavaLang.Some(JavaLang.IndexOutOfBounds)
    else TemplateFault(s, k + 1, m)
  }

  /** isRandom(stream) with the template the code reads through
      GetULPosition supplied as `template`: the new instance state and the
      returned verdict, or the exception the code throws. */
  function IsRandom(t: State, heap: Heap, s: Stream, template: seq<int>, k: MathFunctions.Kernels): (r: Result<(State, bool)>)
    requires Valid(heap, s) && |template| == GetBitLength(s) && Reachable(t)
    ensures t.base.blockLength < 0 || GetBitLength(s) < 0 ==> r == JavaLang.Err(JavaLang.NegativeArraySize)
    ensures t.base.blockLength >= 0 && GetBitLength(s) >= 0 && !Scans(t, s) ==>
      r == (if t.base.blockLength / N < GetBitLength(s) || GetBitLength(s) >= 1024 then JavaLang.Ok((t, false))
            else JavaLang.Err(JavaLang.ArrayIndexOutOfBounds))
    ensures Scans(t, s) ==> (r.Ok? ==> r.value.0 == Thin(t, GetBitLength(s)))
    ensures Scans(t, s) && Thinned(t.numOfTemplates[GetBitLength(s)]) == 0 ==> r == JavaLang.Ok((Thin(t, GetBitLength(s)), false))
    ensures Scans(t, s) && Thinned(t.numOfTemplates[GetBitLength(s)]) > 0 ==>
      (r.Ok? <==> (GetBitLength(s) == 0 || (s.buffer.Some? && 4 * GetBitLength(s) <= s.buffer.value.limit))
                  && BlockCounts(heap, s, template, t.base.blockLength / N, N).Ok?)
    ensures Scans(t, s) && Thinned(t.numOfTemplates[GetBitLength(s)]) > 0 && GetBitLength(s) > 0 ==>
      (s.buffer.None? ==> r == JavaLang.Err(JavaLang.NullPointer))
      && (s.buffer.Some? && 4 * GetBitLength(s) > s.buffer.value.limit ==> r == JavaLang.Err(JavaLang.IndexOutOfBounds))
    ensures Scans(t, s) && Thinned(t.numOfTemplates[GetBitLength(s)]) > 0 && r.Ok? ==>
      r.value.1 == InRange(PValue(k, BlockCounts(heap, s, template, t.base.blockLength / N, N).value, t.base.blockLength / N, GetBitLength(s)))
    ensures r.Ok? ==> Reachable(r.value.0) && r.value.0.base == t.base
  {
    var n := t.base.blockLength;
    var m := GetBitLength(s);
    if n < 0 || m < 0 then JavaLang.Err(JavaLang.NegativeArraySize)
    else
      JavaLang.DivAgreesOnNaturals(n, N);
      var blockSize := JavaLang.Div(n, N);
      LambdaGuard(blockSize, m);
      var lambda := Lambda(blockSize, m);
      if MathFunctions.IsNegative(lambda) || MathFunctions.IsZero(lambda) then JavaLang.Ok((t, false))
      else if m >= |t.numOfTemplates| then JavaLang.Err(JavaLang.ArrayIndexOutOfBounds)
      else
        ThinningSettles(t.numOfTemplates[m]);
        var u := Thin(t, m);
        var count := u.numOfTemplates[m];
        if (if MAXNUMOFTEMPLATES < count then MAXNUMOFTEMPLATES else count) <= 0 then JavaLang.Ok((u, false))
        else if TemplateFault(s, 0, m).Some? then JavaLang.Err(TemplateFault(s, 0, m).value)
        else
          var w :- BlockCounts(heap, s, template, blockSize, N);
          JavaLang.Ok((u, InRange(PValue(k, w, blockSize, m))))
  }

  /** A buffer that holds every bit the block scan reads can still be too
      short for the template read, which needs 4 m bytes: then the scan
      alone would succeed, but the evaluation throws before it. A 16-bit
      stream reduced to 2 bits over a 2-byte buffer, with blockLength 16,
      is such a case. */
  lemma ShortBufferThrowsAtTemplate(t: State, heap: Heap, s: Stream, template: seq<int>, k: MathFunctions.Kernels)
    requires Valid(heap, s) && |template| == GetBitLength(s) >= 1 && Reachable(t)
    requires Scans(t, s) && Thinned(t.numOfTemplates[GetBitLength(s)]) > 0
    requires s.buffer.Some? && N * (t.base.blockLength / N) <= 8 * s.buffer.value.limit < 32 * GetBitLength(s)
    ensures BlockCounts(heap, s, template, t.base.blockLength / N, N).Ok?
    ensures IsRandom(t, heap, s, template, k) == JavaLang.Err(JavaLang.IndexOutOfBounds)
  {
    CountsOfCoveredStream(heap, s, template, t.base.blockLength / N);
  }

  /** With the blockLength every test starts with (0), the blocks are empty
      and a non-empty stream is rejected without reading a bit. */
  lemma DefaultBlockLengthRejects(t: State, heap: Heap, s: Stream, template: seq<int>, k: MathFunctions.Kernels)
    requires Valid(heap, s) && |template| == GetBitLength(s) && GetBitLength(s) >= 1
    requires t.base.blockLength == 0 && Reachable(t)
    ensures IsRandom(t, heap, s, template, k) == JavaLang.Ok((t, false))
  {
  }

  /** On a stream whose buffer holds all 8 M bits the observed counts are
      the hit counts of those bits, and each block's W_obs * m <= M. */
  lemma CountsOfCoveredStream(heap: Heap, s: Stream, template: seq<int>, blockSize: nat)
    requires Valid(heap, s) && s.buffer.Some? && |template| >= 1
    requires N * blockSize <= 8 * s.buffer.value.limit
    ensures BlockCounts(heap, s, template, blockSize, N) == JavaLang.Ok(HitCounts(Bits(heap, s, N * blockSize), template, blockSize, N))
    ensures forall i :: 0 <= i < N ==> HitCounts(Bits(heap, s, N * blockSize), template, blockSize, N)[i] * |template| <= blockSize
  {
    BufferReads(heap, s, N * blockSize, template);
    CountsReadBits(heap, s, Bits(heap, s, N * blockSize), template, blockSize, N);
    HitCountsFit(Bits(heap, s, N * blockSize), template, blockSize, N);
  }

  /** Each block's count of disjoint m-bit hits fits in the block. */
  lemma HitCountsFit(bits: seq<Bit>, template: seq<int>, blockSize: nat, count: nat)
    requires |template| >= 1 && count * blockSize <= |bits|
    ensures forall i :: 0 <= i < count ==> HitCounts(bits, template, blockSize, count)[i] * |template| <= blockSize
  {
    forall i | 0 <= i < count
      ensures HitCounts(bits, template, blockSize, count)[i] * |template| <= blockSize
    {
      HitCountsEntry(bits, template, blockSize, count, i);
      HitsFitInBlock(bits, template, i * blockSize, blockSize, 0);
    }
  }

  /** The buffer's first n bits are what the window loop reads. */
  lemma BufferReads(heap: Heap, s: Stream, n: nat, template: seq<int>)
    requires Valid(heap, s) && s.buffer.Some? && n <= 8 * s.buffer.value.limit
    ensures WindowsRead(heap, s, Bits(heap, s, n), template)
  {
    ReadsGiveWindows(heap, s, Bits(heap, s, n), template);
  }

  lemma {:induction false} HitCountsEntry(bits: seq<Bit>, template: seq<int>, blockSize: nat, count: nat, i: nat)
    requires |template| >= 1 && count * blockSize <= |bits| && i < count
    ensures i * blockSize + blockSize <= |bits|
    ensures HitCounts(bits, template, blockSize, count)[i] == |HitOffsets(bits, template, i * blockSize, blockSize, 0)|
    decreases count
  {
    assert (count - 1) * blockSize + blockSize == count * blockSize;
    assert i * blockSize <= (count - 1) * blockSize;
    if i < count - 1 {
      HitCountsEntry(bits, template, blockSize, count - 1, i);
    }
  }

  /** A second evaluation of the same length finds the table as the first
      one left it and writes the same value back. */
  lemma TableSettlesAfterOneCall(t: State, heap: Heap, s: Stream, template: seq<int>, k: MathFunctions.Kernels)
    requires Valid(heap, s) && |template| == GetBitLength(s) && Reachable(t)
    requires IsRandom(t, heap, s, template, k).Ok?
    ensures var u := IsRandom(t, heap, s, template, k).value.0;
      IsRandom(u, heap, s, template, k).Ok? ==> IsRandom(u, heap, s, template, k).value.0 == u
  {
    var m := GetBitLength(s);
    if t.base.blockLength >= 0 && m >= 0 && 0 <= m < |t.numOfTemplates| {
      ThinningSettles(t.numOfTemplates[m]);
    }
  }
}
