/** The Discrete Fourier Transform (spectral) test, section 2.6 of NIST
    SP 800-22: the peaks of the spectrum of the ±1 sequence below the 95 %
    threshold are counted. The real FFT itself (drftf1 and its radix
    passes) is the `fftModuli` kernel; the factorisation drfti1 prepares
    for it is modelled exactly. */
module DiscreteFourierTransformTest {
  import JavaLang
  import opened Ieee
  import opened TestKinds
  import opened BaseRandom
  import MathFunctions

  type Bit = JavaLang.Bit
  type Option<T> = JavaLang.Option<T>
  type Result<T> = JavaLang.Result<T>

  const MINIMUM_LENGTH: int := 100
  /** The length of the ifac work array isRandom allocates. */
  const IFAC_LENGTH: nat := 15

  datatype State = State(
    base: TestState,
    percentile: real,
    observedPeaks: real,
    expectedPeaks: real,
    normalizedDifference: Double)

  /** The constructors, finalize() and Initialize() zero the four results;
      only Initialize also resets the base state. */
  function Cleared(base: TestState): (t: State)
    ensures t.base == base && t.percentile == 0.0 && t.observedPeaks == 0.0
    ensures t.expectedPeaks == 0.0 && t.normalizedDifference == Finite(0.0)
  {
    State(base, 0.0, 0.0, 0.0, Finite(0.0))
  }

  function New(math: Option<nat>): (t: State)
    ensures t == Cleared(BaseRandom.New(math))
  {
    Cleared(BaseRandom.New(math))
  }

  function Finalize(t: State): (r: State)
    ensures r == Cleared(t.base)
  {
    Cleared(t.base)
  }

  function Initialize(t: State): (r: State)
    ensures r == Cleared(BaseRandom.Initialize(t.base))
  {
    Cleared(BaseRandom.Initialize(t.base))
  }

  // ---------------------------------------------------------------------
  // drfti1: the factorisation of n

  /** The trial divisor after j failed trials: NTRYH = 4, 2, 3, 5, then
      ntry += 2, that is 7, 9, 11, ... */
  function Trial(j: nat): (d: int)
    ensures d >= 2
    ensures j >= 2 ==> d == 2 * j - 1
  {
    if j == 0 then 4 else if j == 1 then 2 else 2 * j - 1
  }

  function Product(s: seq<int>): int {
    if |s| == 0 then 1 else Product(s[.. |s| - 1]) * s[|s| - 1]
  }

  lemma {:induction false} ProductPrepend(x: int, s: seq<int>)
    ensures Product([x] + s) == x * Product(s)
    decreases |s|
  {
    if |s| > 0 {
      assert ([x] + s)[.. |s|] == [x] + s[.. |s| - 1];
      ProductPrepend(x, s[.. |s| - 1]);
    }
  }

  lemma ProductAppend(s: seq<int>, x: int)
    ensures Product(s + [x]) == Product(s) * x
  {
    assert (s + [x])[.. |s|] == s;
  }

  predicate IsPrime(x: int) { x >= 2 && forall e :: 2 <= e < x ==> x % e != 0 }

  /** The shape of ifac[2..]: every factor is 4 or a prime, and a 2 can only
      stand first. */
  predicate WellShaped(fs: seq<int>) {
    (forall i :: 0 <= i < |fs| ==> fs[i] == 4 || IsPrime(fs[i]))
    && (forall i :: 0 < i < |fs| ==> fs[i] != 2)
  }

  /** What the failed trials have ruled out for the remaining quotient nl:
      after 4 failed, 4 does not divide it; after 2 failed, no even number
      and no odd number from 3 up to the current trial does. */
  predicate Sieved(nl: int, j: nat) {
    (j >= 1 ==> nl % 4 != 0)
    && (j >= 2 ==> nl % 2 != 0 && forall d :: 3 <= d < Trial(j) && d % 2 == 1 ==> nl % d != 0)
  }

  /** The loop invariant of drfti1's do-while over (nl, j, ifac[2..nf+1]). */
  predicate Invariant(n: int, nl: int, j: nat, fs: seq<int>) {
    nl >= 2 && Product(fs) * nl == n && WellShaped(fs) && Sieved(nl, j)
    && (|fs| > 0 && fs[0] == 2 ==> nl % 2 != 0)
  }

  /** Storing a factor: a 2 is moved to ifac[2] by shifting the others up
      one slot, every other factor goes to ifac[nf + 1]. */
  function Store(fs: seq<int>, ntry: int): (r: seq<int>)
    ensures |r| == |fs| + 1 && multiset(r) == multiset(fs) + multiset{ntry}
    ensures ntry == 2 ==> r[0] == 2 && r[1 ..] == fs
    ensures ntry != 2 ==> r[.. |fs|] == fs && r[|fs|] == ntry
  {
    if ntry == 2 then [2] + fs else fs + [ntry]
  }

  lemma MultipleMod(c: int, m: int)
    requires c > 0
    ensures (c * m) % c == 0
  {
    JavaLang.DivModUnique(c * m, c, m, 0);
  }

  lemma DividesThrough(a: int, b: int, c: int)
    requires a > 0 && b > 0 && c > 0 && a % b == 0 && b % c == 0
    ensures a % c == 0
  {
    var x := a / b;
    var y := b / c;
    assert a == b * x;
    assert b == c * y;
    assert x >= 0 && y >= 0;
    assert a == c * (y * x);
    MultipleMod(c, y * x);
  }

  /** A trial that divides nl once nothing smaller has is 2, 4 or a prime. */
  lemma TrialIsPrime(nl: int, j: nat)
    requires nl >= 2 && Sieved(nl, j) && j >= 1 && nl % Trial(j) == 0
    ensures IsPrime(Trial(j))
  {
    var p := Trial(j);
    if j >= 2 {
      forall e | 2 <= e < p
        ensures p % e != 0
      {
        if p % e == 0 {
          if e % 2 == 0 {
            DividesThrough(p, e, 2);
          } else {
            DividesThrough(nl, p, e);
          }
        }
      }
    }
  }

  /** While trials keep failing the trial never overtakes nl: nl is odd and
      has no odd divisor below the trial, yet divides itself. */
  lemma TrialBound(nl: int, j: nat)
    requires nl >= 2 && Sieved(nl, j) && j >= 2
    ensures Trial(j) <= nl
  {
    assert nl % nl == 0;
  }

  /** Whatever divides the quotient divides nl, so nothing ruled out comes
      back. */
  lemma QuotientSieved(nl: int, p: int, q: int, j: nat)
    requires p >= 2 && q >= 1 && nl == p * q && Sieved(nl, j)
    ensures Sieved(q, j)
  {
    forall d | d > 0 && q % d == 0
      ensures nl % d == 0
    {
      assert nl % q == 0 by {
        MultipleMod(q, p);
        assert q * p == nl;
      }
      DividesThrough(nl, q, d);
    }
  }

  lemma StoreProduct(n: int, fs: seq<int>, p: int, q: int)
    requires Product(fs) * (p * q) == n
    ensures Product(Store(fs, p)) * q == n
  {
    if p == 2 {
      ProductPrepend(2, fs);
    } else {
      ProductAppend(fs, p);
    }
    assert Product(Store(fs, p)) == Product(fs) * p;
    assert Product(fs) * p * q == Product(fs) * (p * q);
  }

  lemma StoreShape(fs: seq<int>, p: int)
    requires WellShaped(fs) && (p == 4 || IsPrime(p))
    requires p == 2 ==> fs == [] || fs[0] != 2
    ensures WellShaped(Store(fs, p))
  {
  }

  /** Halving a number that 4 does not divide leaves an odd number. */
  lemma HalfIsOdd(nl: int, q: int)
    requires nl == 2 * q && nl % 4 != 0
    ensures q % 2 != 0
  {
  }

  /** A failed trial moves on to the next one, which still does not
      overtake nl. */
  lemma TrialFails(n: int, nl: int, j: nat, fs: seq<int>)
    requires Invariant(n, nl, j, fs) && nl % Trial(j) != 0
    ensures Invariant(n, nl, j + 1, fs) && (j + 1 >= 2 ==> Trial(j + 1) <= nl)
  {
    if j + 1 >= 2 {
      TrialBound(nl, j + 1);
    }
  }

  /** A successful trial stores the factor and divides it out. */
  lemma TrialDivides(n: int, nl: int, j: nat, fs: seq<int>)
    requires Invariant(n, nl, j, fs) && nl % Trial(j) == 0
    ensures var q := nl / Trial(j);
      1 <= q < nl && Product(Store(fs, Trial(j))) * q == n && WellShaped(Store(fs, Trial(j)))
      && (q != 1 ==> Invariant(n, q, j, Store(fs, Trial(j))))
  {
    var p := Trial(j);
    var q := nl / p;
    ExactQuotient(nl, p);
    StoreProduct(n, fs, p, q);
    assert WellShaped(Store(fs, p)) by {
      if j >= 1 {
        TrialIsPrime(nl, j);
      }
      StoreShape(fs, p);
    }
    if q != 1 {
      QuotientSieved(nl, p, q, j);
      if p == 2 {
        HalfIsOdd(nl, q);
      } else if |fs| > 0 && fs[0] == 2 {
        OddQuotient(nl, q);
      }
    }
  }

  /** An exact division of nl >= 2 by p >= 2 leaves a proper factor. */
  lemma ExactQuotient(nl: int, p: int)
    requires nl >= 2 && p >= 2 && nl % p == 0
    ensures nl == p * (nl / p) && 1 <= nl / p < nl && nl % (nl / p) == 0
  {
    JavaLang.EuclidBounds(nl, p);
    var q := nl / p;
    assert nl == p * q;
    assert (p - 1) * q > 0;
    MultipleMod(q, p);
    assert q * p == nl;
  }

  /** A factor of an odd number is odd. */
  lemma OddQuotient(nl: int, q: int)
    requires nl > 0 && q > 0 && nl % q == 0 && nl % 2 != 0
    ensures q % 2 != 0
  {
    if q % 2 == 0 {
      DividesThrough(nl, q, 2);
      assert false;
    }
  }

  /** One pass of the loop body keeps the invariant, and the final pass
      leaves the complete table. */
  lemma Step(n: int, nl: int, j: nat, fs: seq<int>)
    requires Invariant(n, nl, j, fs)
    ensures nl % Trial(j) != 0 ==>
      Invariant(n, nl, j + 1, fs) && (j + 1 >= 2 ==> Trial(j + 1) <= nl)
    ensures nl % Trial(j) == 0 && nl / Trial(j) == 1 ==>
      Product(Store(fs, Trial(j))) == n && WellShaped(Store(fs, Trial(j)))
    ensures nl % Trial(j) == 0 && nl / Trial(j) != 1 ==>
      nl / Trial(j) < nl && Invariant(n, nl / Trial(j), j, Store(fs, Trial(j)))
  {
    if nl % Trial(j) != 0 {
      TrialFails(n, nl, j, fs);
    } else {
      TrialDivides(n, nl, j, fs);
    }
  }

  /** The do-while of drfti1 from quotient nl after j failed trials. */
  function Factorize(n: int, nl: int, j: nat, fs: seq<int>): (r: seq<int>)
    requires Invariant(n, nl, j, fs)
    ensures Product(r) == n && WellShaped(r)
    decreases nl, if j < 2 then nl + 2 - j else nl - Trial(j)
  {
    var ntry := Trial(j);
    Step(n, nl, j, fs);
    // nq = nl / ntry and nr = nl - ntry * nq, on positive operands
    if nl % ntry != 0 then Factorize(n, nl, j + 1, fs)
    else if nl / ntry == 1 then Store(fs, ntry)
    else Factorize(n, nl / ntry, j, Store(fs, ntry))
  }

  /** The factors drfti1 stores in ifac[2..nf+1], in that order. */
  function Factors(n: int): (fs: seq<int>)
    requires n >= 2
    ensures Product(fs) == n && WellShaped(fs)
  {
    assert Product([]) * n == n;
    Factorize(n, n, 0, [])
  }

  /** Every factor is at least 2, so a factor table is never longer than
      log2 n. */
  lemma {:induction false} FactorsAreFew(fs: seq<int>)
    requires forall i :: 0 <= i < |fs| ==> fs[i] >= 2
    ensures Product(fs) >= JavaLang.Pow2(|fs|)
    decreases |fs|
  {
    if |fs| > 0 {
      FactorsAreFew(fs[.. |fs| - 1]);
    }
  }

  /** drfti1 with an unbounded ifac: n, nf, then the factors. */
  function Drfti1(n: int): (ifac: seq<int>)
    requires n >= 2
    ensures |ifac| >= 2 && ifac[0] == n && ifac[1] == |ifac| - 2
    ensures Product(ifac[2..]) == n && WellShaped(ifac[2..])
  {
    var fs := Factors(n);
    assert ([n, |fs|] + fs)[2..] == fs;
    [n, |fs|] + fs
  }

  /** drfti1 as written: a 14th factor is stored at ifac[15], past the end
      of the 15-slot array. The unused tail stays 0. */
  function Drfti1AsWritten(n: int): (r: Result<seq<int>>)
    requires n >= 2
    ensures r.Err? <==> |Factors(n)| + 2 > IFAC_LENGTH
    ensures r.Err? ==> r.exc == JavaLang.ArrayIndexOutOfBounds
    ensures r.Ok? ==> |r.value| == IFAC_LENGTH && r.value[.. |Drfti1(n)|] == Drfti1(n)
  {
    var ifac := Drfti1(n);
    if |ifac| > IFAC_LENGTH then JavaLang.Err(JavaLang.ArrayIndexOutOfBounds)
    else JavaLang.Ok(ifac + seq(IFAC_LENGTH - |ifac|, _ => 0))
  }

  /** 3^e is odd, so 4 and 2 fail and the loop divides out e threes. */
  function Pow3(e: nat): (p: int)
    ensures p >= 1
  {
    if e == 0 then 1 else 3 * Pow3(e - 1)
  }

  lemma {:induction false} Pow3Odd(e: nat)
    ensures Pow3(e) % 2 == 1 && Pow3(e) % 4 != 0
    decreases e
  {
    if e > 0 {
      Pow3Odd(e - 1);
      var q := Pow3(e - 1);
      assert Pow3(e) == 2 * q + q;
    }
  }

  lemma {:induction false} ThreesFactorize(n: int, e: nat, fs: seq<int>)
    requires e >= 1 && Invariant(n, Pow3(e), 2, fs)
    ensures Factorize(n, Pow3(e), 2, fs) == fs + seq(e, _ => 3)
    decreases e
  {
    var nl := Pow3(e);
    assert nl % 3 == 0 && nl / 3 == Pow3(e - 1);
    Step(n, nl, 2, fs);
    if e == 1 {
      assert fs + seq(1, _ => 3) == fs + [3];
    } else {
      ThreesFactorize(n, e - 1, fs + [3]);
      assert fs + [3] + seq(e - 1, _ => 3) == fs + seq(e, _ => 3);
    }
  }

  /** A power of three has as many factors as its exponent. */
  lemma PowerOfThreeFactors(e: nat)
    requires e >= 1
    ensures |Factors(Pow3(e))| == e
  {
    var n := Pow3(e);
    Pow3Odd(e);
    assert Invariant(n, n, 0, []) by {
      assert Product([]) * n == n;
    }
    assert Factorize(n, n, 0, []) == Factorize(n, n, 1, []) by {
      Step(n, n, 0, []);
    }
    assert Factorize(n, n, 1, []) == Factorize(n, n, 2, []) by {
      Step(n, n, 1, []);
    }
    Step(n, n, 1, []);
    ThreesFactorize(n, e, []);
  }

  /** A stream of 3^14 = 4782969 bits makes drfti1 run out of ifac. */
  lemma LongStreamOverflowsFactorTable()
    ensures Pow3(14) == 4782969
    ensures Drfti1AsWritten(Pow3(14)).Err?
  {
    PowerOfThreeFactors(14);
  }

  // ---------------------------------------------------------------------
  // The spectrum and its peaks

  /** X[i] = 2 bit(i) - 1 for i < n; X[n] stays 0. */
  function Signal(bits: seq<Bit>): (x: seq<int>)
    ensures |x| == |bits| + 1 && x[|bits|] == 0
    ensures forall i :: 0 <= i < |bits| ==> (x[i] == 1 <==> bits[i] == 1) && (x[i] == -1 <==> bits[i] == 0)
  {
    seq(|bits| + 1, i requires 0 <= i <= |bits| => if i < |bits| then 2 * (bits[i] as int) - 1 else 0)
  }

  /** m[0..n/2]: the moduli the transform delivers, on a zero-initialised
      array of n/2 + 1 entries. */
  function Moduli(k: MathFunctions.Kernels, bits: seq<Bit>): (m: seq<real>)
    requires |bits| >= 2
    ensures |m| == |bits| / 2 + 1
  {
    var mods := k.fftModuli(Signal(bits), Drfti1(|bits|));
    seq(|bits| / 2 + 1, i requires 0 <= i <= |bits| / 2 => if i < |mods| then mods[i] else 0.0)
  }

  /** The number of i < upTo with m[i] < bound. */
  function Peaks(m: seq<real>, bound: Double, upTo: nat): (c: nat)
    requires upTo <= |m|
    ensures c <= upTo
  {
    if upTo == 0 then 0
    else Peaks(m, bound, upTo - 1) + (if Lt(Finite(m[upTo - 1]), bound) then 1 else 0)
  }

  lemma {:induction false} PeaksAreTheBelowThreshold(m: seq<real>, bound: Double, upTo: nat)
    requires upTo <= |m|
    ensures Peaks(m, bound, upTo) == |set i | 0 <= i < upTo && Lt(Finite(m[i]), bound)|
    decreases upTo
  {
    if upTo > 0 {
      PeaksAreTheBelowThreshold(m, bound, upTo - 1);
      var before := set i | 0 <= i < upTo - 1 && Lt(Finite(m[i]), bound);
      var after := set i | 0 <= i < upTo && Lt(Finite(m[i]), bound);
      if Lt(Finite(m[upTo - 1]), bound) {
        assert after == before + {upTo - 1};
      } else {
        assert after == before;
      }
    }
  }

  /** T = sqrt(2.995732274 n). */
  function UpperBound(k: MathFunctions.Kernels, n: int): Double {
    k.sqrt(Finite(2.995732274 * n as real))
  }

  function PeakCount(k: MathFunctions.Kernels, bits: seq<Bit>): (c: nat)
    requires |bits| >= 2
    ensures c <= |bits| / 2
  {
    Peaks(Moduli(k, bits), UpperBound(k, |bits|), |bits| / 2)
  }

  /** d = (N1 - N0) / sqrt(n/4 * 0.95 * 0.05). */
  function NormalizedDifference(k: MathFunctions.Kernels, n: int, count: int): Double {
    Div(Finite(count as real - 0.95 * n as real / 2.0), k.sqrt(Finite(n as real / 4.0 * 0.95 * 0.05)))
  }

  /** p = erfc(|d| / sqrt 2). */
  function PValue(k: MathFunctions.Kernels, bits: seq<Bit>): Double
    requires |bits| >= 2
  {
    MathFunctions.ErFc(k, Div(Abs(NormalizedDifference(k, |bits|, PeakCount(k, bits))), k.sqrt(Finite(2.0))))
  }

  /** isRandom(stream) over the corrected factorisation: the only outcomes
      are too-short or a verdict p >= alpha, with no range check and no
      NaN check. */
  function IsRandom(t: State, bits: seq<Bit>, k: MathFunctions.Kernels): (r: State)
    ensures |bits| < MINIMUM_LENGTH ==> r == t.(base := TooShort(t.base))
    ensures |bits| >= MINIMUM_LENGTH ==>
      var count := PeakCount(k, bits);
      r.observedPeaks == count as real && 0 <= count <= |bits| / 2
      && r.percentile == count as real / (|bits| / 2) as real * 100.0
      && r.expectedPeaks == 0.95 * |bits| as real / 2.0
      && r.normalizedDifference == NormalizedDifference(k, |bits|, count)
      && r.base == t.base.(error := NoError, pValue := PValue(k, bits), random := Passes(PValue(k, bits), t.base.alpha))
  {
    if |bits| < MINIMUM_LENGTH then t.(base := TooShort(t.base))
    else
      var n := |bits|;
      var count := PeakCount(k, bits);
      var p := PValue(k, bits);
      State(t.base.(error := NoError, pValue := p, random := Passes(p, t.base.alpha)),
            count as real / (n / 2) as real * 100.0, count as real, 0.95 * n as real / 2.0,
            NormalizedDifference(k, n, count))
  }

  /** isRandom as written: drfti1 throws for lengths with fourteen or more
      factors before anything is computed. */
  function IsRandomAsWritten(t: State, bits: seq<Bit>, k: MathFunctions.Kernels): (r: Result<State>)
    ensures |bits| < MINIMUM_LENGTH ==> r == JavaLang.Ok(t.(base := TooShort(t.base)))
    ensures |bits| >= MINIMUM_LENGTH ==>
      (r.Err? <==> Drfti1AsWritten(|bits|).Err?) && (r.Ok? ==> r.value == IsRandom(t, bits, k))
  {
    if |bits| < MINIMUM_LENGTH then JavaLang.Ok(t.(base := TooShort(t.base)))
    else if Drfti1AsWritten(|bits|).Err? then JavaLang.Err(JavaLang.ArrayIndexOutOfBounds)
    else JavaLang.Ok(IsRandom(t, bits, k))
  }

  /** The peak count is the number of moduli below the threshold. */
  lemma PeakCountIsBelowThreshold(k: MathFunctions.Kernels, bits: seq<Bit>)
    requires |bits| >= 2
    ensures PeakCount(k, bits) ==
      |set i | 0 <= i < |bits| / 2 && Lt(Finite(Moduli(k, bits)[i]), UpperBound(k, |bits|))|
  {
    PeaksAreTheBelowThreshold(Moduli(k, bits), UpperBound(k, |bits|), |bits| / 2);
  }

  function Kind(): (r: RandomTest)
    ensures Registrable(r) && Ordinal(r) == 10
  {
    TestKinds.DiscreteFourierTransform
  }
}
