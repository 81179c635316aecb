/** The cyclic m-bit pattern counts the Serial and Approximate Entropy tests
    share (sections 2.11 and 2.12 of NIST SP 800-22). The stream is wrapped
    around, so every one of its n positions starts a window of m bits; the
    window, read with a leading 1 bit in front, picks the counter
    P[k - 1] it increments. The m-bit patterns therefore occupy the cells
    2^m - 1 .. 2^(m+1) - 2 of an array of 2^(m+1) - 1 counters. */
module CyclicWindows {
  import opened JavaLang
  import Ieee
  import MathFunctions
  import BitWalk

  /** The m bits starting at position i, wrapping past the end. */
  function Window(bits: seq<Bit>, i: nat, m: nat): (w: seq<Bit>)
    requires |bits| > 0
    ensures |w| == m
    ensures forall j :: 0 <= j < m ==> w[j] == bits[(i + j) % |bits|]
  {
    seq(m, j requires 0 <= j < m => bits[(i + j) % |bits|])
  }

  /** k after the inner loop has read j bits of the window at i: each bit
      doubles k and adds the bit, starting from k = 1. */
  function Code(bits: seq<Bit>, i: nat, j: nat): (c: nat)
    requires |bits| > 0
    ensures Pow2(j) <= c < Pow2(j + 1)
  {
    if j == 0 then 1 else 2 * Code(bits, i, j - 1) + bits[(i + j - 1) % |bits|]
  }

  /** The counter a window increments, P[k - 1]. */
  function Slot(bits: seq<Bit>, i: nat, m: nat): (s: nat)
    requires |bits| > 0
    ensures Pow2(m) - 1 <= s < Pow2(m + 1) - 1
  {
    Code(bits, i, m) - 1
  }

  /** k is the window read as a binary number, first bit most significant,
      behind a marker bit worth 2^m. */
  lemma {:induction false} CodeReadsWindow(bits: seq<Bit>, i: nat, m: nat)
    requires |bits| > 0
    ensures Code(bits, i, m) == Pow2(m) + BitWalk.Word(Window(bits, i, m), 0, m)
    decreases m
  {
    if m > 0 {
      CodeReadsWindow(bits, i, m - 1);
      var w := Window(bits, i, m);
      assert w[.. m - 1] == Window(bits, i, m - 1);
      BitWalk.WordOfPrefix(w, m - 1);
    }
  }

  /** The cell of pattern w: 2^m - 1 + w read as a number. */
  function Cell(w: seq<Bit>): (s: nat)
    ensures Pow2(|w|) - 1 <= s < Pow2(|w| + 1) - 1
  {
    BitWalk.WordBound(w, 0, |w|);
    Pow2(|w|) - 1 + BitWalk.Word(w, 0, |w|)
  }

  /** Two windows share a counter exactly when they hold the same bits. */
  lemma SlotIsCell(bits: seq<Bit>, i: nat, w: seq<Bit>)
    requires |bits| > 0
    ensures Slot(bits, i, |w|) == Cell(w) <==> Window(bits, i, |w|) == w
  {
    CodeReadsWindow(bits, i, |w|);
    BitWalk.WholeWordInjective(Window(bits, i, |w|), w);
  }

  /** P after the outer loop has handled positions 0 .. i - 1. */
  function Counts(bits: seq<Bit>, m: nat, i: nat): (p: seq<nat>)
    requires |bits| > 0
    ensures |p| == Pow2(m + 1) - 1
  {
    if i == 0 then seq(Pow2(m + 1) - 1, _ => 0)
    else
      var p := Counts(bits, m, i - 1);
      var s := Slot(bits, i - 1, m);
      p[s := p[s] + 1]
  }

  /** The reference count: positions below i whose window is w. */
  function Matches(bits: seq<Bit>, w: seq<Bit>, i: nat): nat
    requires |bits| > 0
  {
    if i == 0 then 0
    else Matches(bits, w, i - 1) + (if Window(bits, i - 1, |w|) == w then 1 else 0)
  }

  /** The counter of pattern w holds the number of windows equal to w. */
  lemma {:induction false} CountsMatchWindows(bits: seq<Bit>, w: seq<Bit>, i: nat)
    requires |bits| > 0
    ensures Counts(bits, |w|, i)[Cell(w)] == Matches(bits, w, i)
  {
    if i > 0 {
      CountsMatchWindows(bits, w, i - 1);
      SlotIsCell(bits, i - 1, w);
    }
  }

  /** The cells in front of level m are never incremented. */
  lemma {:induction false} CountsBelowLevel(bits: seq<Bit>, m: nat, i: nat, s: nat)
    requires |bits| > 0 && s < Pow2(m) - 1
    ensures Counts(bits, m, i)[s] == 0
  {
    if i > 0 {
      CountsBelowLevel(bits, m, i - 1, s);
    }
  }

  /** The 2^m counters of the m-bit patterns once all n windows are counted. */
  function Level(bits: seq<Bit>, m: nat): (p: seq<nat>)
    requires |bits| > 0
    ensures |p| == Pow2(m)
  {
    assert Pow2(m + 1) == 2 * Pow2(m);
    Counts(bits, m, |bits|)[Pow2(m) - 1 ..]
  }

  /** Level entry v counts the windows whose bits read as v. */
  lemma LevelCountsPattern(bits: seq<Bit>, w: seq<Bit>)
    requires |bits| > 0
    ensures BitWalk.Word(w, 0, |w|) < |Level(bits, |w|)|
    ensures Level(bits, |w|)[BitWalk.Word(w, 0, |w|)] == Matches(bits, w, |bits|)
  {
    BitWalk.WordBound(w, 0, |w|);
    CountsMatchWindows(bits, w, |bits|);
  }

  // ---------------------------------------------------------------------
  // Sums

  function Sum(xs: seq<int>): int {
    if |xs| == 0 then 0 else Sum(xs[.. |xs| - 1]) + xs[|xs| - 1]
  }

  function SumOfSquares(xs: seq<int>): int {
    if |xs| == 0 then 0 else SumOfSquares(xs[.. |xs| - 1]) + xs[|xs| - 1] * xs[|xs| - 1]
  }

  lemma {:induction false} SumAppend(a: seq<int>, b: seq<int>)
    ensures Sum(a + b) == Sum(a) + Sum(b)
    decreases |b|
  {
    if |b| > 0 {
      SumAppend(a, b[.. |b| - 1]);
      assert (a + b)[.. |a + b| - 1] == a + b[.. |b| - 1];
    } else {
      assert a + b == a;
    }
  }

  lemma {:induction false} SumOfZeros(xs: seq<int>)
    requires forall j :: 0 <= j < |xs| ==> xs[j] == 0
    ensures Sum(xs) == 0
    decreases |xs|
  {
    if |xs| > 0 {
      SumOfZeros(xs[.. |xs| - 1]);
    }
  }

  /** Incrementing one entry raises the sum by the increment. */
  lemma {:induction false} SumUpdate(xs: seq<int>, s: nat, d: int)
    requires s < |xs|
    ensures Sum(xs[s := xs[s] + d]) == Sum(xs) + d
    decreases |xs|
  {
    var ys := xs[s := xs[s] + d];
    var k := |xs| - 1;
    if s < k {
      SumUpdate(xs[.. k], s, d);
      assert ys[.. k] == xs[.. k][s := xs[s] + d];
    } else {
      assert ys[.. k] == xs[.. k];
    }
  }

  /** Every position is counted once: the counters add up to i. */
  lemma {:induction false} CountsTotal(bits: seq<Bit>, m: nat, i: nat)
    requires |bits| > 0
    ensures Sum(Counts(bits, m, i)) == i
  {
    if i == 0 {
      SumOfZeros(Counts(bits, m, 0));
    } else {
      CountsTotal(bits, m, i - 1);
      SumUpdate(Counts(bits, m, i - 1), Slot(bits, i - 1, m), 1);
    }
  }

  /** The n windows all land in level m, so its counters add up to n. */
  lemma LevelTotal(bits: seq<Bit>, m: nat)
    requires |bits| > 0
    ensures Sum(Level(bits, m)) == |bits|
  {
    var p := Counts(bits, m, |bits|);
    var lo := Pow2(m) - 1;
    assert p == p[.. lo] + p[lo ..];
    SumAppend(p[.. lo], p[lo ..]);
    forall j | 0 <= j < lo
      ensures p[.. lo][j] == 0
    {
      CountsBelowLevel(bits, m, |bits|, j);
    }
    SumOfZeros(p[.. lo]);
    CountsTotal(bits, m, |bits|);
  }

  /** Cauchy-Schwarz for counters: N * sum of squares >= (sum)^2. */
  lemma {:induction false} SquaresBound(xs: seq<int>)
    ensures |xs| * SumOfSquares(xs) >= Sum(xs) * Sum(xs)
    decreases |xs|
  {
    if |xs| > 0 {
      var init := xs[.. |xs| - 1];
      var n := |init|;
      var x := xs[|xs| - 1];
      var t := Sum(init);
      var q := SumOfSquares(init);
      SquaresBound(init);
      assert n * q >= t * t;
      CrossTermBound(n, q, t, x);
      assert (n + 1) * (q + x * x) == n * q + q + n * x * x + x * x;
      assert (t + x) * (t + x) == t * t + 2 * t * x + x * x;
    }
  }

  /** From n q >= t^2: q + n x^2 >= 2 t x. */
  lemma CrossTermBound(n: nat, q: int, t: int, x: int)
    requires n * q >= t * t
    requires n == 0 ==> t == 0 && q >= 0
    ensures q + n * x * x >= 2 * t * x
  {
    if n > 0 {
      assert (t - n * x) * (t - n * x) >= 0;
      assert t * t + n * n * x * x >= 2 * t * n * x;
      assert n * (q + n * x * x) >= n * (2 * t * x);
    }
  }

  // ---------------------------------------------------------------------
  // A constant stream

  /** When every window below i is w, all i positions sit in w's cell. */
  lemma {:induction false} CountsOfOnePattern(bits: seq<Bit>, w: seq<Bit>, i: nat)
    requires |bits| > 0
    requires forall j :: 0 <= j < i ==> Window(bits, j, |w|) == w
    ensures Counts(bits, |w|, i) == seq(Pow2(|w| + 1) - 1, s => if s == Cell(w) then i else 0)
  {
    if i > 0 {
      CountsOfOnePattern(bits, w, i - 1);
      SlotIsCell(bits, i - 1, w);
    }
  }

  /** len counters, all 0 except c at v. */
  function OneEntry(len: nat, v: int, c: nat): (p: seq<nat>)
    ensures |p| == len
  {
    seq(len, s => if s == v then c else 0)
  }

  lemma {:induction false} SquaresOfOneEntry(len: nat, v: int, c: nat)
    ensures SumOfSquares(OneEntry(len, v, c)) == if 0 <= v < len then c * c else 0
  {
    if len > 0 {
      SquaresOfOneEntry(len - 1, v, c);
      assert OneEntry(len, v, c)[.. len - 1] == OneEntry(len - 1, v, c);
    }
  }

  /** A constant stream has a single pattern, m copies of its bit: its
      level-m counters are n in that pattern's cell and 0 elsewhere. */
  lemma ConstantStreamLevel(bits: seq<Bit>, m: nat)
    requires |bits| > 0
    requires forall i :: 0 <= i < |bits| ==> bits[i] == bits[0]
    ensures BitWalk.Word(seq(m, _ => bits[0]), 0, m) < Pow2(m)
    ensures Level(bits, m) == OneEntry(Pow2(m), BitWalk.Word(seq(m, _ => bits[0]), 0, m), |bits|)
  {
    var w: seq<Bit> := seq(m, _ => bits[0]);
    forall j | 0 <= j < |bits|
      ensures Window(bits, j, m) == w
    {
    }
    CountsOfOnePattern(bits, w, |bits|);
    BitWalk.WordBound(w, 0, m);
    assert Pow2(m + 1) == 2 * Pow2(m);
  }

  /** So the squares of its counters add up to n^2. */
  lemma ConstantStreamSquares(bits: seq<Bit>, m: nat)
    requires |bits| > 0
    requires forall i :: 0 <= i < |bits| ==> bits[i] == bits[0]
    ensures SumOfSquares(Level(bits, m)) == |bits| * |bits|
  {
    ConstantStreamLevel(bits, m);
    SquaresOfOneEntry(Pow2(m), BitWalk.Word(seq(m, _ => bits[0]), 0, m), |bits|);
  }

  /** No counter exceeds the number of windows. */
  lemma {:induction false} EntriesBelowSum(xs: seq<nat>)
    ensures forall j :: 0 <= j < |xs| ==> xs[j] <= Sum(xs)
    decreases |xs|
  {
    if |xs| > 0 {
      EntriesBelowSum(xs[.. |xs| - 1]);
      assert forall j :: 0 <= j < |xs| - 1 ==> xs[j] == xs[.. |xs| - 1][j];
    }
  }

  lemma LevelEntriesBounded(bits: seq<Bit>, m: nat)
    requires |bits| > 0
    ensures forall j :: 0 <= j < |Level(bits, m)| ==> Level(bits, m)[j] <= |bits|
  {
    EntriesBelowSum(Level(bits, m));
    LevelTotal(bits, m);
  }

  // ---------------------------------------------------------------------
  // The recommended block size

  /** log(n) / log(2), with the elementary logarithm. */
  function Log2(k: MathFunctions.Kernels, n: int): Ieee.Double {
    Ieee.Div(k.ln(Ieee.Of(n)), k.ln(Ieee.Of(2)))
  }

  /** MaximumBlockSizeRecommended(n) = (int) max(1, log2 n - 2): never
      below 1, whatever the logarithm returns. */
  function MaximumBlockSizeRecommended(k: MathFunctions.Kernels, n: int): (r: int)
    ensures 1 <= r
  {
    Ieee.ToInt(MathFunctions.Max(Ieee.Finite(1.0), Ieee.Sub(Log2(k, n), Ieee.Finite(2.0))))
  }

  /** A block length b >= 2 exceeds the recommendation whenever the
      computed log2 n stays below b + 2. */
  lemma RecommendationBelow(k: MathFunctions.Kernels, n: int, b: int)
    requires b >= 2
    requires Log2(k, n).Finite? && Log2(k, n).v < (b + 2) as real
    ensures MaximumBlockSizeRecommended(k, n) < b
  {
  }
}
