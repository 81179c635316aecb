/** The ±1 random walk of a bit sequence, which the Frequency, Runs,
    Cumulative Sums and Random Excursions tests all build on: bit b steps
    by 2b - 1. Also the big-endian reading of a run of bits, which the
    Universal and Lempel-Ziv tests use as a pattern key. */
module BitWalk {
  import opened JavaLang

  function Step(b: Bit): (d: int)
    ensures d == 1 || d == -1
    ensures d == 1 <==> b == 1
  {
    2 * b - 1
  }

  /** Sum of the steps of all bits. */
  function Walk(bits: seq<Bit>): int
  {
    if |bits| == 0 then 0 else Walk(bits[.. |bits| - 1]) + Step(bits[|bits| - 1])
  }

  /** Number of ones. */
  function Ones(bits: seq<Bit>): (c: nat)
    ensures c <= |bits|
  {
    if |bits| == 0 then 0 else Ones(bits[.. |bits| - 1]) + bits[|bits| - 1]
  }

  /** The walk ends at ones minus zeros. */
  lemma {:induction false} WalkIsOnesMinusZeros(bits: seq<Bit>)
    ensures Walk(bits) == 2 * Ones(bits) - |bits|
    decreases |bits|
  {
    if |bits| > 0 {
      WalkIsOnesMinusZeros(bits[.. |bits| - 1]);
    }
  }

  /** |sum| <= n and sum has the parity of n. */
  lemma WalkBounds(bits: seq<Bit>)
    ensures -|bits| <= Walk(bits) <= |bits|
    ensures (Walk(bits) - |bits|) % 2 == 0
  {
    WalkIsOnesMinusZeros(bits);
    assert Walk(bits) - |bits| == 2 * (Ones(bits) - |bits|);
  }

  lemma {:induction false} OnesOfConstant(bits: seq<Bit>, b: Bit)
    requires forall i :: 0 <= i < |bits| ==> bits[i] == b
    ensures Ones(bits) == b * |bits|
    decreases |bits|
  {
    if |bits| > 0 {
      OnesOfConstant(bits[.. |bits| - 1], b);
    }
  }

  /** All ones walk to n, all zeros to -n. */
  lemma WalkOfConstant(bits: seq<Bit>, b: Bit)
    requires forall i :: 0 <= i < |bits| ==> bits[i] == b
    ensures Walk(bits) == if b == 1 then |bits| else -|bits|
  {
    OnesOfConstant(bits, b);
    WalkIsOnesMinusZeros(bits);
  }

  lemma {:induction false} OnesAppend(a: seq<Bit>, b: seq<Bit>)
    ensures Ones(a + b) == Ones(a) + Ones(b)
    decreases |b|
  {
    if |b| > 0 {
      assert (a + b)[.. |a + b| - 1] == a + b[.. |b| - 1];
      assert (a + b)[|a + b| - 1] == b[|b| - 1];
      OnesAppend(a, b[.. |b| - 1]);
    } else {
      assert a + b == a;
    }
  }

  /** A sequence with as many ones as zeros walks back to 0. */
  lemma BalancedWalk(bits: seq<Bit>)
    requires 2 * Ones(bits) == |bits|
    ensures Walk(bits) == 0
  {
    WalkIsOnesMinusZeros(bits);
  }

  /** Prefix sums: S[i] is the walk of the first i + 1 bits. */
  function Prefix(bits: seq<Bit>, i: int): int
    requires 0 <= i < |bits|
  {
    Walk(bits[.. i + 1])
  }

  lemma PrefixStep(bits: seq<Bit>, i: int)
    requires 0 < i < |bits|
    ensures Prefix(bits, i) == Prefix(bits, i - 1) + Step(bits[i])
  {
    assert bits[.. i + 1][.. i] == bits[.. i];
  }

  lemma PrefixBound(bits: seq<Bit>, i: int)
    requires 0 <= i < |bits|
    ensures -(i + 1) <= Prefix(bits, i) <= i + 1
  {
    WalkBounds(bits[.. i + 1]);
  }

  /** The sequence read back to front. */
  function Reverse(bits: seq<Bit>): (r: seq<Bit>)
    ensures |r| == |bits|
    ensures forall i :: 0 <= i < |bits| ==> r[i] == bits[|bits| - 1 - i]
  {
    seq(|bits|, i requires 0 <= i < |bits| => bits[|bits| - 1 - i])
  }

  /** Reversal keeps the number of ones, so the walk ends at the same
      place read either way. */
  lemma {:induction false} OnesOfReverse(bits: seq<Bit>)
    ensures Ones(Reverse(bits)) == Ones(bits)
    ensures Walk(Reverse(bits)) == Walk(bits)
    decreases |bits|
  {
    if |bits| > 0 {
      var init := bits[.. |bits| - 1];
      OnesOfReverse(init);
      assert Reverse(bits) == [bits[|bits| - 1]] + Reverse(init);
      OnesAppend([bits[|bits| - 1]], Reverse(init));
      assert Ones([bits[|bits| - 1]]) == bits[|bits| - 1] by {
        assert [bits[|bits| - 1]][.. 0] == [];
      }
    }
    WalkIsOnesMinusZeros(bits);
    WalkIsOnesMinusZeros(Reverse(bits));
  }

  /** bits[start .. start + j) read as a big-endian binary number. */
  function Word(bits: seq<Bit>, start: nat, j: nat): nat
    requires start + j <= |bits|
  {
    if j == 0 then 0 else 2 * Word(bits, start, j - 1) + bits[start + j - 1] as int
  }

  lemma {:induction false} WordBound(bits: seq<Bit>, start: nat, j: nat)
    requires start + j <= |bits|
    ensures Word(bits, start, j) < JavaLang.Pow2(j)
  {
    if j > 0 {
      WordBound(bits, start, j - 1);
    }
  }

  /** Two blocks of one sequence read as the same number exactly when
      they hold the same bits. */
  lemma {:induction false} WordInjective(bits: seq<Bit>, a: nat, b: nat, j: nat)
    requires a + j <= |bits| && b + j <= |bits|
    ensures Word(bits, a, j) == Word(bits, b, j) <==> bits[a .. a + j] == bits[b .. b + j]
  {
    if j > 0 {
      WordInjective(bits, a, b, j - 1);
      assert bits[a .. a + j] == bits[a .. a + j - 1] + [bits[a + j - 1]];
      assert bits[b .. b + j] == bits[b .. b + j - 1] + [bits[b + j - 1]];
      if bits[a .. a + j] == bits[b .. b + j] {
        assert bits[a .. a + j - 1] == bits[a .. a + j][.. j - 1];
        assert bits[b .. b + j - 1] == bits[b .. b + j][.. j - 1];
        assert bits[a + j - 1] == bits[a .. a + j][j - 1];
      }
    }
  }

  /** The same for two whole sequences of equal length. */
  lemma {:induction false} WholeWordInjective(a: seq<Bit>, b: seq<Bit>)
    requires |a| == |b|
    ensures Word(a, 0, |a|) == Word(b, 0, |b|) <==> a == b
    decreases |a|
  {
    if |a| > 0 {
      var n := |a| - 1;
      WholeWordInjective(a[.. n], b[.. n]);
      WordOfPrefix(a, n);
      WordOfPrefix(b, n);
      if Word(a, 0, |a|) == Word(b, 0, |b|) {
        assert a == a[.. n] + [a[n]] && b == b[.. n] + [b[n]];
      }
    }
  }

  /** Word only looks at the bits it reads. */
  lemma {:induction false} WordOfPrefix(a: seq<Bit>, n: nat)
    requires n <= |a|
    ensures Word(a[.. n], 0, n) == Word(a, 0, n)
    decreases n
  {
    if n > 0 {
      WordOfPrefix(a, n - 1);
      assert a[.. n][.. n - 1] == a[.. n - 1];
      WordOfPrefix(a[.. n], n - 1);
    }
  }
}
