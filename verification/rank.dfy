/** The Binary Matrix Rank test, section 2.5 of NIST SP 800-22: the stream
    is cut into 32 x 32 matrices over GF(2) whose ranks are tallied. */
module RankTest {
  import JavaLang
  import opened Ieee
  import opened TestKinds
  import opened BaseRandom
  import MathFunctions

  type Bit = JavaLang.Bit
  type Option<T> = JavaLang.Option<T>

  const MINIMUM_LENGTH: int := 38912
  /** The matrices are ROWS x COLS. */
  const ROWS: nat := 32
  const COLS: nat := 32
  const MATRIX_BITS: nat := 1024

  datatype State = State(
    base: TestState,
    chiSquared: real,
    matrixNumber: int,
    bitsDiscarded: int,
    p30: real, p31: real, p32: real,
    f30: int, f31: int, f32: int)

  function Cleared(base: TestState): (t: State)
    ensures t.base == base && t.matrixNumber == 0 && t.bitsDiscarded == 0
    ensures t.f30 == 0 && t.f31 == 0 && t.f32 == 0 && t.chiSquared == 0.0
  {
    State(base, 0.0, 0, 0, 0.0, 0.0, 0.0, 0, 0, 0)
  }

  /** Both constructors, finalize() and Initialize() zero every field;
      only Initialize also resets the base state. */
  function New(math: Option<nat>): (t: State)
    ensures t == Cleared(BaseRandom.New(math))
  {
    Cleared(BaseRandom.New(math))
  }

  function Finalize(t: State): (r: State)
    ensures r == Cleared(t.base)
  {
    Cleared(t.base)
  }

  function Initialize(t: State): (r: State)
    ensures r == Cleared(BaseRandom.Initialize(t.base))
  {
    Cleared(BaseRandom.Initialize(t.base))
  }

  // ---------------------------------------------------------------------
  // Matrices over GF(2)

  type Matrix = seq<seq<Bit>>

  predicate IsMatrix(a: Matrix, rows: nat, cols: nat) {
    |a| == rows && forall r :: 0 <= r < |a| ==> |a[r]| == cols
  }

  /** DefineMatrix(stream, 32, 32, m, k): entry (i, j) is bit
      k*1024 + j + 32 i. */
  function DefineMatrix(bits: seq<Bit>, k: nat): (a: Matrix)
    requires k * MATRIX_BITS + MATRIX_BITS <= |bits|
    ensures IsMatrix(a, ROWS, COLS)
    ensures forall i, j :: 0 <= i < ROWS && 0 <= j < COLS ==> a[i][j] == bits[k * MATRIX_BITS + j + i * ROWS]
  {
    seq(ROWS, i requires 0 <= i < ROWS =>
      seq(COLS, j requires 0 <= j < COLS => bits[k * MATRIX_BITS + j + i * ROWS]))
  }

  /** Read back row by row, the matrix is block k of the stream: every
      one of its 1024 bits lands in exactly one entry. */
  lemma DefineMatrixIsRowMajor(bits: seq<Bit>, k: nat, p: nat)
    requires k * MATRIX_BITS + MATRIX_BITS <= |bits| && p < MATRIX_BITS
    ensures DefineMatrix(bits, k)[p / COLS][p % COLS] == bits[k * MATRIX_BITS + p]
  {
    assert p == (p % COLS) + (p / COLS) * ROWS;
  }

  /** `A[j][k] = (A[j][k] + A[i][k]) % 2` for k from `from`: row j XOR row i
      on those columns. */
  function AddRow(row: seq<Bit>, pivot: seq<Bit>, from: int): (r: seq<Bit>)
    requires |row| == |pivot|
    ensures |r| == |row|
    ensures forall c :: 0 <= c < |row| ==> r[c] == if c >= from then (row[c] as int + pivot[c] as int) % 2 else row[c]
  {
    seq(|row|, c requires 0 <= c < |row| => if c >= from then ((row[c] as int + pivot[c] as int) % 2) as Bit else row[c])
  }

  /** PerformElementaryRowOperations(flag, i): row i is added to every row
      below it (flag 0, from column i) or above it (flag 1, from column 0)
      that has a 1 in column i. Row i itself never changes during the loop,
      so the rows can be updated independently. */
  function Eliminate(a: Matrix, cols: nat, flag: int, i: nat): (b: Matrix)
    requires IsMatrix(a, |a|, cols) && i < |a|
    ensures IsMatrix(b, |a|, cols)
    ensures b[i] == a[i]
    ensures flag == 0 ==> forall j :: 0 <= j < i ==> b[j] == a[j]
    ensures flag == 1 ==> forall j :: i < j < |a| ==> b[j] == a[j]
    ensures flag != 0 && flag != 1 ==> b == a
  {
    seq(|a|, j requires 0 <= j < |a| =>
      if flag == 0 && j > i && i < cols && a[j][i] == 1 then AddRow(a[j], a[i], i)
      else if flag == 1 && j < i && i < cols && a[j][i] == 1 then AddRow(a[j], a[i], 0)
      else a[j])
  }

  /** With a 1 on the diagonal, elimination clears column i below (flag 0)
      or above (flag 1) the pivot and leaves the other side and the pivot
      row alone. */
  lemma EliminateClearsColumn(a: Matrix, cols: nat, flag: int, i: nat)
    requires IsMatrix(a, |a|, cols) && i < |a| && i < cols && a[i][i] == 1
    ensures var b := Eliminate(a, cols, flag, i);
      b[i] == a[i]
      && (flag == 0 ==> forall j :: i < j < |a| ==> b[j][i] == 0)
      && (flag == 0 ==> forall j :: 0 <= j < i ==> b[j] == a[j])
      && (flag == 1 ==> forall j :: 0 <= j < i ==> b[j][i] == 0)
      && (flag == 1 ==> forall j :: i < j < |a| ==> b[j] == a[j])
  {
  }

  /** SwapRows(i, index): exchanges the two rows, nothing else. */
  function SwapRows(a: Matrix, i: nat, index: nat): (b: Matrix)
    requires i < |a| && index < |a|
    ensures |b| == |a| && b[i] == a[index] && b[index] == a[i]
    ensures forall r :: 0 <= r < |a| && r != i && r != index ==> b[r] == a[r]
  {
    a[i := a[index]][index := a[i]]
  }

  lemma SwapRowsInvolution(a: Matrix, i: nat, index: nat)
    requires i < |a| && index < |a|
    ensures SwapRows(SwapRows(a, i, index), i, index) == a
  {
  }

  /** The first row after i with a 1 in column i (flag 0's search). */
  function FirstBelow(a: Matrix, col: nat, from: nat): (r: Option<nat>)
    requires forall x :: 0 <= x < |a| ==> col < |a[x]|
    ensures r.Some? ==>
      from <= r.value < |a| && a[r.value][col] == 1 && forall x :: from <= x < r.value ==> a[x][col] == 0
    ensures r.None? ==> forall x :: from <= x < |a| ==> a[x][col] == 0
    decreases |a| - from
  {
    if from >= |a| then JavaLang.None
    else if a[from][col] == 1 then JavaLang.Some(from)
    else FirstBelow(a, col, from + 1)
  }

  /** The nearest row at or above `from` with a 1 in column col (flag 1's
      search, moving upwards). */
  function NearestAbove(a: Matrix, col: nat, from: int): (r: Option<nat>)
    requires from < |a| && forall x :: 0 <= x < |a| ==> col < |a[x]|
    ensures r.Some? ==>
      r.value <= from && a[r.value][col] == 1 && forall x :: r.value < x <= from ==> a[x][col] == 0
    ensures r.None? ==> forall x :: 0 <= x <= from ==> a[x][col] == 0
    decreases from + 1
  {
    if from < 0 then JavaLang.None
    else if a[from][col] == 1 then JavaLang.Some(from)
    else NearestAbove(a, col, from - 1)
  }

  /** FindUnitElementAndSwap(flag, i): looks below (flag 0) or above
      (flag 1) row i for a 1 in column i and swaps the first one found into
      row i. The result is 1 exactly when such a row exists. */
  function FindUnitElementAndSwap(a: Matrix, cols: nat, flag: int, i: nat): (r: (int, Matrix))
    requires IsMatrix(a, |a|, cols) && i < |a| && i < cols
    ensures IsMatrix(r.1, |a|, cols)
    ensures r.0 == 1 || r.0 == 0
    ensures flag == 0 ==> (r.0 == 1 <==> exists x :: i < x < |a| && a[x][i] == 1)
    ensures flag == 1 ==> (r.0 == 1 <==> exists x :: 0 <= x < i && a[x][i] == 1)
    ensures flag != 0 && flag != 1 ==> r.0 == 0
    ensures r.0 == 1 ==> r.1[i][i] == 1
    ensures r.0 == 0 ==> r.1 == a
  {
    var found := if flag == 0 then FirstBelow(a, i, i + 1)
                 else if flag == 1 then NearestAbove(a, i, i - 1)
                 else JavaLang.None;
    if found.Some? then (1, SwapRows(a, i, found.value)) else (0, a)
  }

  /** One iteration of ComputeRank's loops at diagonal position i. */
  function Pivot(a: Matrix, cols: nat, flag: int, i: nat): (b: Matrix)
    requires IsMatrix(a, |a|, cols) && i < |a| && i < cols
    ensures IsMatrix(b, |a|, cols)
  {
    if a[i][i] == 1 then Eliminate(a, cols, flag, i)
    else
      var (found, s) := FindUnitElementAndSwap(a, cols, flag, i);
      if found == 1 then Eliminate(s, cols, flag, i) else s
  }

  /** The forward loop: i = from .. m - 2. */
  function ForwardPhase(a: Matrix, cols: nat, m: nat, from: nat): (b: Matrix)
    requires IsMatrix(a, |a|, cols) && m <= |a| && m <= cols
    ensures IsMatrix(b, |a|, cols)
    decreases m - from
  {
    if from + 1 >= m then a else ForwardPhase(Pivot(a, cols, 0, from), cols, m, from + 1)
  }

  /** The backward loop: i = from down to 1. */
  function BackwardPhase(a: Matrix, cols: nat, from: int): (b: Matrix)
    requires IsMatrix(a, |a|, cols) && from < |a| && from < cols
    ensures IsMatrix(b, |a|, cols)
    decreases from
  {
    if from <= 0 then a else BackwardPhase(Pivot(a, cols, 1, from), cols, from - 1)
  }

  predicate ZeroRow(row: seq<Bit>) { forall c :: 0 <= c < |row| ==> row[c] == 0 }

  /** The number of all-zero rows: none exactly when every row holds a 1,
      all of them exactly when the matrix is zero. */
  function ZeroRows(a: Matrix): (z: nat)
    ensures z <= |a|
    ensures z == 0 <==> forall r :: 0 <= r < |a| ==> !ZeroRow(a[r])
    ensures z == |a| <==> forall r :: 0 <= r < |a| ==> ZeroRow(a[r])
  {
    if |a| == 0 then 0 else ZeroRows(a[.. |a| - 1]) + (if ZeroRow(a[|a| - 1]) then 1 else 0)
  }

  /** DetermineRank(m): m less one for every all-zero row. */
  function DetermineRank(m: int, a: Matrix): (rank: int)
    ensures m - |a| <= rank <= m
    ensures rank == m <==> forall r :: 0 <= r < |a| ==> !ZeroRow(a[r])
    ensures rank == m - |a| <==> forall r :: 0 <= r < |a| ==> ZeroRow(a[r])
  {
    m - ZeroRows(a)
  }

  function MinInt(x: int, y: int): int { if x > y then y else x }

  /** ComputeRank(M, Q, matrix). */
  function ComputeRank(a: Matrix, cols: nat): (rank: int)
    requires IsMatrix(a, |a|, cols)
    ensures |a| <= cols ==> 0 <= rank <= |a|
  {
    var m := MinInt(|a|, cols);
    var f := ForwardPhase(a, cols, m, 0);
    var b := if m >= 1 then BackwardPhase(f, cols, m - 1) else f;
    DetermineRank(m, b)
  }

  // Zero and identity matrices pass through unchanged.

  predicate IsZero(a: Matrix) { forall r :: 0 <= r < |a| ==> ZeroRow(a[r]) }

  lemma {:induction false} ZeroRowsOfZero(a: Matrix)
    requires IsZero(a)
    ensures ZeroRows(a) == |a|
    decreases |a|
  {
    if |a| > 0 {
      ZeroRowsOfZero(a[.. |a| - 1]);
    }
  }

  lemma PivotKeepsZero(a: Matrix, cols: nat, flag: int, i: nat)
    requires IsMatrix(a, |a|, cols) && i < |a| && i < cols && IsZero(a)
    ensures Pivot(a, cols, flag, i) == a
  {
    assert Eliminate(a, cols, flag, i) == a;
  }

  lemma {:induction false} ForwardKeepsZero(a: Matrix, cols: nat, m: nat, from: nat)
    requires IsMatrix(a, |a|, cols) && m <= |a| && m <= cols && IsZero(a)
    ensures ForwardPhase(a, cols, m, from) == a
    decreases m - from
  {
    if from + 1 < m {
      PivotKeepsZero(a, cols, 0, from);
      ForwardKeepsZero(a, cols, m, from + 1);
    }
  }

  lemma {:induction false} BackwardKeepsZero(a: Matrix, cols: nat, from: int)
    requires IsMatrix(a, |a|, cols) && from < |a| && from < cols && IsZero(a)
    ensures BackwardPhase(a, cols, from) == a
    decreases from
  {
    if from > 0 {
      PivotKeepsZero(a, cols, 1, from);
      BackwardKeepsZero(a, cols, from - 1);
    }
  }

  /** A square all-zero matrix has rank 0. */
  lemma ZeroMatrixHasRankZero(a: Matrix)
    requires IsMatrix(a, |a|, |a|) && IsZero(a)
    ensures ComputeRank(a, |a|) == 0
  {
    ForwardKeepsZero(a, |a|, |a|, 0);
    if |a| >= 1 {
      BackwardKeepsZero(a, |a|, |a| - 1);
    }
    ZeroRowsOfZero(a);
  }

  predicate IsIdentity(a: Matrix) {
    IsMatrix(a, |a|, |a|) && forall r, c :: 0 <= r < |a| && 0 <= c < |a| ==> a[r][c] == if r == c then 1 else 0
  }

  lemma PivotKeepsIdentity(a: Matrix, flag: int, i: nat)
    requires IsIdentity(a) && i < |a|
    ensures Pivot(a, |a|, flag, i) == a
  {
    assert Eliminate(a, |a|, flag, i) == a;
  }

  lemma {:induction false} ForwardKeepsIdentity(a: Matrix, m: nat, from: nat)
    requires IsIdentity(a) && m <= |a|
    ensures ForwardPhase(a, |a|, m, from) == a
    decreases m - from
  {
    if from + 1 < m {
      PivotKeepsIdentity(a, 0, from);
      ForwardKeepsIdentity(a, m, from + 1);
    }
  }

  lemma {:induction false} BackwardKeepsIdentity(a: Matrix, from: int)
    requires IsIdentity(a) && from < |a|
    ensures BackwardPhase(a, |a|, from) == a
    decreases from
  {
    if from > 0 {
      PivotKeepsIdentity(a, 1, from);
      BackwardKeepsIdentity(a, from - 1);
    }
  }

  lemma {:induction false} NoZeroRowsInIdentity(a: Matrix, upTo: nat)
    requires IsIdentity(a) && upTo <= |a|
    ensures ZeroRows(a[.. upTo]) == 0
    decreases upTo
  {
    if upTo > 0 {
      assert a[.. upTo][.. upTo - 1] == a[.. upTo - 1];
      NoZeroRowsInIdentity(a, upTo - 1);
      assert a[upTo - 1][upTo - 1] == 1;
    }
  }

  /** The n x n identity has rank n. */
  lemma IdentityHasFullRank(a: Matrix)
    requires IsIdentity(a)
    ensures ComputeRank(a, |a|) == |a|
  {
    ForwardKeepsIdentity(a, |a|, 0);
    if |a| >= 1 {
      BackwardKeepsIdentity(a, |a| - 1);
    }
    NoZeroRowsInIdentity(a, |a|);
    assert a[.. |a|] == a;
  }

  // ---------------------------------------------------------------------
  // Tallies, probabilities and the verdict

  function RankOf(bits: seq<Bit>, k: nat): (r: int)
    requires k * MATRIX_BITS + MATRIX_BITS <= |bits|
    ensures 0 <= r <= ROWS
  {
    ComputeRank(DefineMatrix(bits, k), COLS)
  }

  /** The ranks of the first `count` matrices, in stream order. */
  function Ranks(bits: seq<Bit>, count: nat): (rs: seq<int>)
    requires count * MATRIX_BITS <= |bits|
    ensures |rs| == count
    ensures forall x :: 0 <= x < count ==> rs[x] == RankOf(bits, x)
  {
    seq(count, x requires 0 <= x < count => RankOf(bits, x))
  }

  /** How many of the ranks equal `target`: f32 and f31. */
  function CountOf(rs: seq<int>, target: int): (f: nat)
    ensures f <= |rs|
  {
    if |rs| == 0 then 0
    else CountOf(rs[.. |rs| - 1], target) + (if rs[|rs| - 1] == target then 1 else 0)
  }

  /** Every rank is counted for at most one target, so f32 + f31 <= N. */
  lemma {:induction false} CountsDisjoint(rs: seq<int>, a: int, b: int)
    requires a != b
    ensures CountOf(rs, a) + CountOf(rs, b) <= |rs|
    decreases |rs|
  {
    if |rs| > 0 {
      CountsDisjoint(rs[.. |rs| - 1], a, b);
    }
  }

  /** A count is the number of positions holding the target. */
  lemma {:induction false} CountOfIsCardinality(rs: seq<int>, target: int)
    ensures CountOf(rs, target) == |set x | 0 <= x < |rs| && rs[x] == target|
    decreases |rs|
  {
    if |rs| > 0 {
      var init := rs[.. |rs| - 1];
      CountOfIsCardinality(init, target);
      var before := set x | 0 <= x < |init| && init[x] == target;
      var after := set x | 0 <= x < |rs| && rs[x] == target;
      if rs[|rs| - 1] == target {
        assert after == before + {|rs| - 1};
      } else {
        assert after == before;
      }
    }
  }

  function Pow2Real(e: int): (r: real)
    ensures r > 0.0
    decreases if e < 0 then -e else e
  {
    if e == 0 then 1.0 else if e > 0 then 2.0 * Pow2Real(e - 1) else Pow2Real(e + 1) / 2.0
  }

  /** prod_{i < r} (1 - 2^(i-32))^2 / (1 - 2^(i-r)). */
  function RankProduct(r: nat, upTo: nat): real
    requires upTo <= r
  {
    if upTo == 0 then 1.0
    else
      var i := upTo - 1;
      var a := 1.0 - Pow2Real(i - 32);
      var d := 1.0 - Pow2Real(i - r);
      RankProduct(r, i) * (if d == 0.0 then 0.0 else a * a / d)
  }

  /** The probability of rank r for a random 32 x 32 matrix. */
  function RankProbability(r: nat): real
    requires r <= 32
  {
    Pow2Real(r * (32 + 32 - r) - 32 * 32) * RankProduct(r, r)
  }

  function ChiTerm(f: real, expected: real): real {
    if expected == 0.0 then 0.0 else (f - expected) * (f - expected) / expected
  }

  datatype Statistic = Statistic(count: nat, f32: nat, f31: nat, f30: nat, chi: real)

  /** The matrix count, the tallies and chi^2 of a long enough stream. */
  function Measure(bits: seq<Bit>): (m: Statistic)
    ensures m.count == |bits| / MATRIX_BITS
    ensures m.f32 == CountOf(Ranks(bits, m.count), 32) && m.f31 == CountOf(Ranks(bits, m.count), 31)
    ensures m.f30 == m.count - m.f32 - m.f31
  {
    var count := |bits| / MATRIX_BITS;
    assert count * MATRIX_BITS <= |bits|;
    var rs := Ranks(bits, count);
    var f32 := CountOf(rs, 32);
    var f31 := CountOf(rs, 31);
    CountsDisjoint(rs, 32, 31);
    var f30 := count - f32 - f31;
    var p32 := RankProbability(32);
    var p31 := RankProbability(31);
    var p30 := 1.0 - (p32 + p31);
    var n := count as real;
    Statistic(count, f32, f31, f30,
      ChiTerm(f32 as real, n * p32) + ChiTerm(f31 as real, n * p31) + ChiTerm(f30 as real, n * p30))
  }

  /** p = exp(-chi^2 / 2). */
  function PValue(k: MathFunctions.Kernels, bits: seq<Bit>): Double {
    k.exp(Finite(-Measure(bits).chi / 2.0))
  }

  /** isRandom(stream): N = floor(n / 1024) matrices (at least 38, so the
      isZero(matrixNumber) branch is never taken), the counts of rank 32
      and 31 and the rest, chi^2 and p = exp(-chi^2 / 2); the verdict, then
      the range check. */
  function IsRandom(t: State, bits: seq<Bit>, k: MathFunctions.Kernels): (r: State)
    ensures |bits| < MINIMUM_LENGTH ==> r == t.(base := TooShort(t.base))
    ensures |bits| >= MINIMUM_LENGTH ==>
      var m := Measure(bits);
      r.matrixNumber == m.count && m.count >= 38 && r.bitsDiscarded == |bits| % MATRIX_BITS
      && r.f32 == m.f32 && r.f31 == m.f31 && r.f30 == m.f30 && r.chiSquared == m.chi
      && r.p32 == RankProbability(32) && r.p31 == RankProbability(31) && r.p30 == 1.0 - (r.p32 + r.p31)
      && r.base == Judge(t.base.(error := NoError), PValue(k, bits))
  {
    if |bits| < MINIMUM_LENGTH then t.(base := TooShort(t.base))
    else
      var m := Measure(bits);
      var p32 := RankProbability(32);
      var p31 := RankProbability(31);
      State(Judge(t.base.(error := NoError), PValue(k, bits)), m.chi, m.count, |bits| % MATRIX_BITS,
            1.0 - (p32 + p31), p31, p32, m.f30, m.f31, m.f32)
  }

  /** A tally counts exactly the matrices of its rank. */
  lemma TallyCountsRank(bits: seq<Bit>, count: nat, target: int)
    requires count * MATRIX_BITS <= |bits|
    ensures CountOf(Ranks(bits, count), target) == |set x | 0 <= x < count && RankOf(bits, x) == target|
  {
    CountOfIsCardinality(Ranks(bits, count), target);
    ListedIsRanked(bits, count, target);
  }

  /** The positions of the list holding `target` are the matrices of that
      rank. */
  lemma ListedIsRanked(bits: seq<Bit>, count: nat, target: int)
    requires count * MATRIX_BITS <= |bits|
    ensures (set x | 0 <= x < |Ranks(bits, count)| && Ranks(bits, count)[x] == target)
      == (set x | 0 <= x < count && RankOf(bits, x) == target)
  {
    var rs := Ranks(bits, count);
    forall x | 0 <= x < count
      ensures rs[x] == target <==> RankOf(bits, x) == target
    {
    }
  }

  /** The three tallies partition the matrices, and each of f32 and f31
      counts exactly the matrices of that rank. */
  lemma TalliesPartition(bits: seq<Bit>)
    requires |bits| >= MINIMUM_LENGTH
    ensures var m := Measure(bits);
      m.f32 + m.f31 + m.f30 == m.count
      && m.f32 == |set x | 0 <= x < m.count && RankOf(bits, x) == 32|
      && m.f31 == |set x | 0 <= x < m.count && RankOf(bits, x) == 31|
  {
    var m := Measure(bits);
    assert m.count * MATRIX_BITS <= |bits|;
    TallyCountsRank(bits, m.count, 32);
    TallyCountsRank(bits, m.count, 31);
  }

  function Kind(): (r: RandomTest)
    ensures Registrable(r) && Ordinal(r) == 6
  {
    TestKinds.Rank
  }
}
