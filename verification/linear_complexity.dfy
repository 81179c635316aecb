/** The Linear Complexity test, section 2.10 of NIST SP 800-22: the
    Berlekamp-Massey algorithm finds, for every M-bit block, the length L
    of a linear feedback shift register that generates it; the normalised
    deviations T' of these lengths are binned into seven classes and
    compared with their expected frequencies. */
module LinearComplexityTest {
  import JavaLang
  import opened Ieee
  import opened BaseRandom
  import MathFunctions

  type Bit = JavaLang.Bit
  type Option<T> = JavaLang.Option<T>
  type Result<T> = JavaLang.Result<T>

  /** K degrees of freedom, K + 1 classes. */
  const K: nat := 6
  const PI: seq<real> := [0.01047, 0.03125, 0.12500, 0.50000, 0.25000, 0.06250, 0.020833]

  /** LinearComplexity declares its own blockLength field, which hides the
      one of BaseRandom; it starts at the Java default 0. */
  datatype State = State(base: TestState, blockLength: int)

  /** The implicit constructor calls BaseRandom(). */
  function New(): (t: State)
    ensures t.base == BaseRandom.New(JavaLang.None) && t.blockLength == 0
  {
    State(BaseRandom.New(JavaLang.None), 0)
  }

  /** setBlockLength writes the test's own field. */
  function SetBlockLength(t: State, b: int): (r: State)
    ensures r.blockLength == b && r.base == t.base
  {
    t.(blockLength := b)
  }

  /** BaseRandom's SetBlockLength writes the hidden field, which isRandom
      never reads. */
  lemma {:induction false} BaseBlockLengthIgnored(t: State, b: int, bits: seq<Bit>, k: MathFunctions.Kernels)
    ensures var r := t.(base := BaseRandom.SetBlockLength(t.base, b));
      r.blockLength == t.blockLength
      && (IsRandom(r, bits, k).Ok? <==> IsRandom(t, bits, k).Ok?)
      && (IsRandom(t, bits, k).Ok? ==> IsRandom(r, bits, k).value.1 == IsRandom(t, bits, k).value.1)
  {
  }

  // ---------------------------------------------------------------------
  // Polynomials over GF(2)

  predicate Binary(c: seq<int>) {
    forall i :: 0 <= i < |c| ==> 0 <= c[i] <= 1
  }

  /** The sum over j of c[j] * s[k - j] modulo 2, over the terms with
      j <= k: the discrepancy of connection polynomial c at position k. */
  function Conv(c: seq<int>, s: seq<Bit>, k: int): Bit
    requires k < |s|
  {
    if |c| == 0 then 0
    else
      var j := |c| - 1;
      (Conv(c[.. j], s, k) + (if j <= k then c[j] * s[k - j] else 0)) % 2
  }

  /** The register (c, l) generates s[l .. n): every discrepancy there is 0. */
  predicate Generates(c: seq<int>, l: int, s: seq<Bit>, n: int)
    requires n <= |s|
  {
    forall k :: l <= k < n ==> Conv(c, s, k) == 0
  }

  function Zeros(n: nat): (z: seq<int>)
    ensures |z| == n && forall i :: 0 <= i < n ==> z[i] == 0
  {
    if n == 0 then [] else Zeros(n - 1) + [0]
  }

  /** C[i] = (C[i] + P[i]) % 2. */
  function Xor(c: seq<int>, p: seq<int>): (r: seq<int>)
    requires |c| == |p|
    ensures |r| == |c|
    ensures forall i :: 0 <= i < |c| ==> r[i] == (c[i] + p[i]) % 2
  {
    seq(|c|, i requires 0 <= i < |c| => (c[i] + p[i]) % 2)
  }

  lemma {:induction false} ConvOfNegative(c: seq<int>, s: seq<Bit>, k: int)
    requires k < 0 && k < |s|
    ensures Conv(c, s, k) == 0
    decreases |c|
  {
    if |c| > 0 {
      ConvOfNegative(c[.. |c| - 1], s, k);
    }
  }

  lemma {:induction false} ConvOfZeros(n: nat, s: seq<Bit>, k: int)
    requires k < |s|
    ensures Conv(Zeros(n), s, k) == 0
    decreases n
  {
    if n > 0 {
      assert Zeros(n)[.. n - 1] == Zeros(n - 1);
      ConvOfZeros(n - 1, s, k);
    }
  }

  /** Trailing zero coefficients do not contribute. */
  lemma {:induction false} ConvOfPrefix(c: seq<int>, i: nat, s: seq<Bit>, k: int)
    requires i <= |c| && k < |s|
    requires forall j :: i <= j < |c| ==> c[j] == 0
    ensures Conv(c[.. i], s, k) == Conv(c, s, k)
    decreases |c|
  {
    if |c| > i {
      var init := c[.. |c| - 1];
      assert init[.. i] == c[.. i];
      ConvOfPrefix(init, i, s, k);
    } else {
      assert c[.. i] == c;
    }
  }

  /** Multiplying by D^t moves every discrepancy t places. */
  lemma {:induction false} ConvOfShift(t: nat, q: seq<int>, s: seq<Bit>, k: int)
    requires k < |s|
    ensures Conv(Zeros(t) + q, s, k) == Conv(q, s, k - t)
    decreases |q|
  {
    if |q| == 0 {
      assert Zeros(t) + q == Zeros(t);
      ConvOfZeros(t, s, k);
    } else {
      var init := q[.. |q| - 1];
      assert (Zeros(t) + q)[.. |Zeros(t) + q| - 1] == Zeros(t) + init;
      ConvOfShift(t, init, s, k);
    }
  }

  /** Discrepancies add over GF(2). */
  lemma {:induction false} ConvOfXor(c: seq<int>, p: seq<int>, s: seq<Bit>, k: int)
    requires |c| == |p| && Binary(c) && Binary(p) && k < |s|
    ensures Conv(Xor(c, p), s, k) == (Conv(c, s, k) + Conv(p, s, k)) % 2
    decreases |c|
  {
    if |c| > 0 {
      var j := |c| - 1;
      var x := Xor(c, p);
      assert x[.. j] == Xor(c[.. j], p[.. j]);
      ConvOfXor(c[.. j], p[.. j], s, k);
      var z: Bit := if j <= k then s[k - j] else 0;
      var a: int, b: int := Conv(c[.. j], s, k), Conv(p[.. j], s, k);
      ConvLast(c, s, k, j, z);
      ConvLast(p, s, k, j, z);
      ConvLast(x, s, k, j, z);
      assert Conv(x[.. j], s, k) == (a + b) % 2;
      XorTerm(a, b, c[j], p[j], x[j], z);
    }
  }

  /** Conv peels its last coefficient j, the term z being s[k - j] or 0. */
  lemma ConvLast(c: seq<int>, s: seq<Bit>, k: int, j: int, z: Bit)
    requires |c| > 0 && k < |s| && j == |c| - 1
    requires z == if j <= k then s[k - j] else 0
    ensures Conv(c, s, k) == (Conv(c[.. j], s, k) + c[j] * z) % 2
  {
  }

  lemma {:induction false} XorTerm(a: Bit, b: Bit, x: int, y: int, xy: int, z: Bit)
    requires 0 <= x <= 1 && 0 <= y <= 1 && xy == (x + y) % 2
    ensures ((a + b) % 2 + xy * z) % 2 == ((a + x * z) % 2 + (b + y * z) % 2) % 2
  {
  }

  // ---------------------------------------------------------------------
  // One block: the Berlekamp-Massey loop

  /** C and B_ of the Java code, the complexity L and the step m of the
      last length change. */
  datatype Register = Register(c: seq<int>, b: seq<int>, l: int, m: int)

  /** C[0] = B_[0] = 1 and every other entry 0, L = 0, m = -1. */
  function Start(size: nat): (r: Register)
    requires size >= 1
    ensures |r.c| == |r.b| == size && r.c[0] == 1 && r.b[0] == 1
    ensures forall i :: 1 <= i < size ==> r.c[i] == 0 && r.b[i] == 0
  {
    var one := [1] + Zeros(size - 1);
    Register(one, one, 0, -1)
  }

  /** d before the `% 2`: s[n] + sum of C[i] * s[n - i] for i = 1 .. i. */
  function JavaSum(c: seq<int>, s: seq<Bit>, n: int, i: nat): int
    requires i < |c| && i <= n < |s|
  {
    if i == 0 then s[n] else JavaSum(c, s, n, i - 1) + c[i] * s[n - i]
  }

  /** P: B_ shifted up by t places, or the exception of the write
      P[j + t] past the end of the array. */
  function Shifted(b: seq<int>, t: nat): (r: Result<seq<int>>)
    requires 1 <= t <= |b|
    ensures r.Err? ==> r.exc == JavaLang.ArrayIndexOutOfBounds
    ensures r.Ok? ==> r.value == Zeros(t) + b[.. |b| - t]
  {
    if OneFrom(b, |b| - t) then JavaLang.Err(JavaLang.ArrayIndexOutOfBounds)
    else JavaLang.Ok(Zeros(t) + b[.. |b| - t])
  }

  /** b holds a one at `from` or later. */
  predicate OneFrom(b: seq<int>, from: nat)
    requires from <= |b|
    decreases |b| - from
  {
    from < |b| && (b[from] == 1 || OneFrom(b, from + 1))
  }

  lemma {:induction false} OneFromExists(b: seq<int>, from: nat)
    requires from <= |b|
    ensures OneFrom(b, from) <==> exists j :: from <= j < |b| && b[j] == 1
    decreases |b| - from
  {
    if from < |b| {
      OneFromExists(b, from + 1);
    }
  }

  /** The shift throws exactly when a one of B_ would land at index
      |B_| or beyond. */
  lemma {:induction false} ShiftedFails(b: seq<int>, t: nat)
    requires 1 <= t <= |b|
    ensures Shifted(b, t).Err? <==> exists j :: 0 <= j < |b| && b[j] == 1 && j + t >= |b|
  {
    OneFromExists(b, |b| - t);
  }

  predicate Shaped(r: Register, size: nat, n: nat) {
    |r.c| == size && |r.b| == size && 0 <= r.l <= n && -1 <= r.m < n && r.l <= r.m + 1
  }

  /** Round N_ = n of the while loop, on arrays of `size` entries. */
  function Step(s: seq<Bit>, size: nat, r: Register, n: nat): (res: Result<Register>)
    requires n < |s| && n < size && Shaped(r, size, n)
    ensures res.Ok? ==> Shaped(res.value, size, n + 1)
  {
    var d := JavaSum(r.c, s, n, r.l) % 2;
    if d == 1 then
      var p :- Shifted(r.b, n - r.m);
      var c := Xor(r.c, p);
      if r.l <= n / 2 then JavaLang.Ok(Register(c, r.c, n + 1 - r.l, n))
      else JavaLang.Ok(Register(c, r.b, r.l, r.m))
    else JavaLang.Ok(r)
  }

  /** The first n rounds. */
  function Run(s: seq<Bit>, size: nat, n: nat): (res: Result<Register>)
    requires n <= |s| && n <= size && size >= 1
    ensures res.Ok? ==> Shaped(res.value, size, n)
  {
    if n == 0 then JavaLang.Ok(Start(size))
    else
      var r :- Run(s, size, n - 1);
      Step(s, size, r, n - 1)
  }

  /** The shape the loop keeps: binary arrays with C[0] = B_[0] = 1, C of
      degree at most L and B_ of degree at most m + 1 - L. */
  predicate Shape(r: Register, size: nat, n: nat) {
    Shaped(r, size, n) && size >= 1
    && Binary(r.c) && Binary(r.b) && r.c[0] == 1 && r.b[0] == 1
    && (r.m == -1 <==> r.l == 0)
    && (forall i :: 0 <= i < size && r.l < i ==> r.c[i] == 0)
    && (forall i :: 0 <= i < size && r.m + 1 - r.l < i ==> r.b[i] == 0)
  }

  /** C generates s[L .. n); B_ generated s[m + 1 - L .. m) and failed at m. */
  predicate Generating(s: seq<Bit>, r: Register, n: nat)
    requires n <= |s| && r.m < n
  {
    Generates(r.c, r.l, s, n)
    && (r.m >= 0 ==> Generates(r.b, r.m + 1 - r.l, s, r.m) && Conv(r.b, s, r.m) == 1)
  }

  predicate ZeroPrefix(s: seq<Bit>, n: nat)
    requires n <= |s|
  {
    forall i :: 0 <= i < n ==> s[i] == 0
  }

  /** Everything the loop keeps after n rounds; L stays 0 exactly while
      only zeros were read. */
  predicate Invariant(s: seq<Bit>, size: nat, r: Register, n: nat)
    requires n <= |s|
  {
    Shape(r, size, n) && Generating(s, r, n) && (r.l == 0 <==> ZeroPrefix(s, n))
  }

  /** The Java discrepancy d is the discrepancy of C at n. */
  lemma {:induction false} JavaSumIsConv(c: seq<int>, s: seq<Bit>, n: int, i: nat)
    requires i < |c| && i <= n < |s| && c[0] == 1
    ensures JavaSum(c, s, n, i) % 2 == Conv(c[.. i + 1], s, n)
    decreases i
  {
    if i == 0 {
      assert c[.. 1][.. 0] == [];
    } else {
      JavaSumIsConv(c, s, n, i - 1);
      assert c[.. i + 1][.. i] == c[.. i];
    }
  }

  lemma {:induction false} Discrepancy(s: seq<Bit>, size: nat, r: Register, n: nat)
    requires n < |s| && n < size && Shape(r, size, n)
    ensures JavaSum(r.c, s, n, r.l) % 2 == Conv(r.c, s, n)
    ensures r.l == 0 ==> Conv(r.c, s, n) == s[n]
  {
    JavaSumIsConv(r.c, s, n, r.l);
    ConvOfPrefix(r.c, r.l + 1, s, n);
    if r.l == 0 {
      assert r.c[.. 1] == [1];
      assert [1][.. 0] == [];
    }
  }

  /** A round fails exactly when the first one arrives in the last place
      of the arrays: B_ = 1 is then shifted by n + 1 = size. */
  lemma {:induction false} StepFails(s: seq<Bit>, size: nat, r: Register, n: nat)
    requires n < |s| && n < size && Invariant(s, size, r, n)
    ensures Step(s, size, r, n).Err? <==> r.l == 0 && s[n] == 1 && n == size - 1
    ensures Step(s, size, r, n).Err? ==> Step(s, size, r, n).exc == JavaLang.ArrayIndexOutOfBounds
  {
    Discrepancy(s, size, r, n);
    if 1 <= n - r.m <= size {
      ShiftedFails(r.b, n - r.m);
    }
    if r.l == 0 {
      assert r.b[0] == 1;
    } else {
      forall j | 0 <= j < size && r.b[j] == 1
        ensures j + (n - r.m) < size
      {
      }
    }
  }

  /** P is binary, keeps the degree bound of B_ raised by t, and has P[0] = 0;
      B_ has no one in the entries the shift drops. */
  lemma {:induction false} ShiftedShape(b: seq<int>, t: nat, deg: int)
    requires 1 <= t <= |b| && Binary(b) && Shifted(b, t).Ok?
    requires forall i :: 0 <= i < |b| && deg < i ==> b[i] == 0
    ensures var p := Shifted(b, t).value;
      |p| == |b| && Binary(p) && p[0] == 0
      && (forall i :: 0 <= i < |b| && deg + t < i ==> p[i] == 0)
    ensures forall j :: |b| - t <= j < |b| ==> b[j] == 0
  {
    var p := Shifted(b, t).value;
    ShiftedFails(b, t);
    assert forall i :: t <= i < |b| ==> p[i] == b[i - t];
    forall i | 0 <= i < |b| && deg + t < i
      ensures p[i] == 0
    {
      if i >= t {
        assert p[i] == b[i - t];
      }
    }
    forall j | |b| - t <= j < |b|
      ensures b[j] == 0
    {
      assert !(b[j] == 1 && j + t >= |b|);
    }
  }

  /** The new C: B_ shifted by n - m added to C. */
  function Corrected(r: Register, n: nat): (c: seq<int>)
    requires 1 <= n - r.m <= |r.b| && |r.c| == |r.b| && Shifted(r.b, n - r.m).Ok?
  {
    Xor(r.c, Shifted(r.b, n - r.m).value)
  }

  /** The length after a round with discrepancy 1. */
  function NewLength(r: Register, n: nat): int {
    if r.l <= n / 2 then n + 1 - r.l else r.l
  }

  /** The new C is binary, starts with 1 and has degree at most the new L. */
  lemma {:induction false} CorrectedShape(s: seq<Bit>, size: nat, r: Register, n: nat)
    requires n < |s| && n < size && Invariant(s, size, r, n)
    requires Conv(r.c, s, n) == 1 && Shifted(r.b, n - r.m).Ok?
    ensures var c := Corrected(r, n);
      |c| == size && Binary(c) && c[0] == 1
      && forall i :: 0 <= i < size && NewLength(r, n) < i ==> c[i] == 0
  {
    ShiftedShape(r.b, n - r.m, r.m + 1 - r.l);
  }

  lemma {:induction false} StepShape(s: seq<Bit>, size: nat, r: Register, n: nat)
    requires n < |s| && n < size && Invariant(s, size, r, n)
    requires Step(s, size, r, n).Ok?
    ensures Shape(Step(s, size, r, n).value, size, n + 1)
  {
    Discrepancy(s, size, r, n);
    if Conv(r.c, s, n) == 1 {
      CorrectedShape(s, size, r, n);
    }
  }

  /** The discrepancies of P are those of B_, n - m places earlier. */
  lemma {:induction false} ShiftedConv(b: seq<int>, t: nat, s: seq<Bit>, k: int)
    requires 1 <= t <= |b| && Binary(b) && Shifted(b, t).Ok? && k < |s|
    ensures Conv(Shifted(b, t).value, s, k) == Conv(b, s, k - t)
  {
    ShiftedShape(b, t, |b|);
    ConvOfShift(t, b[.. |b| - t], s, k);
    ConvOfPrefix(b, |b| - t, s, k - t);
  }

  /** The new C has no discrepancy from the new L up to n inclusive. */
  lemma {:induction false} NewDiscrepancy(s: seq<Bit>, size: nat, r: Register, n: nat, k: int)
    requires n < |s| && n < size && Invariant(s, size, r, n)
    requires Conv(r.c, s, n) == 1 && Shifted(r.b, n - r.m).Ok?
    requires NewLength(r, n) <= k <= n
    ensures Conv(Corrected(r, n), s, k) == 0
  {
    var t := n - r.m;
    ShiftedShape(r.b, t, r.m + 1 - r.l);
    ConvOfXor(r.c, Shifted(r.b, t).value, s, k);
    ShiftedConv(r.b, t, s, k);
    if r.m == -1 {
      ConvOfNegative(r.b, s, k - t);
    }
  }

  lemma {:induction false} StepGenerating(s: seq<Bit>, size: nat, r: Register, n: nat)
    requires n < |s| && n < size && Invariant(s, size, r, n)
    requires Step(s, size, r, n).Ok?
    ensures Generating(s, Step(s, size, r, n).value, n + 1)
  {
    Discrepancy(s, size, r, n);
    var next := Step(s, size, r, n).value;
    if Conv(r.c, s, n) == 1 {
      assert next.c == Corrected(r, n) && next.l == NewLength(r, n);
      forall k | NewLength(r, n) <= k < n + 1
        ensures Conv(Corrected(r, n), s, k) == 0
      {
        NewDiscrepancy(s, size, r, n, k);
      }
    }
  }

  lemma {:induction false} StepZeroPrefix(s: seq<Bit>, size: nat, r: Register, n: nat)
    requires n < |s| && n < size && Invariant(s, size, r, n)
    requires Step(s, size, r, n).Ok?
    ensures Step(s, size, r, n).value.l == 0 <==> ZeroPrefix(s, n + 1)
  {
    Discrepancy(s, size, r, n);
    if r.l == 0 {
      assert ZeroPrefix(s, n);
    } else {
      assert !ZeroPrefix(s, n);
    }
  }

  lemma {:induction false} StepKeepsInvariant(s: seq<Bit>, size: nat, r: Register, n: nat)
    requires n < |s| && n < size && Invariant(s, size, r, n)
    requires Step(s, size, r, n).Ok?
    ensures Invariant(s, size, Step(s, size, r, n).value, n + 1)
  {
    StepShape(s, size, r, n);
    StepGenerating(s, size, r, n);
    StepZeroPrefix(s, size, r, n);
  }

  lemma {:induction false} StepToKeepsInvariant(s: seq<Bit>, size: nat, r: Register, n: nat, next: Register, n1: nat)
    requires n < |s| && n < size && n1 == n + 1 && Invariant(s, size, r, n)
    requires Step(s, size, r, n) == JavaLang.Ok(next)
    ensures Invariant(s, size, next, n1)
  {
    StepKeepsInvariant(s, size, r, n);
  }

  lemma {:induction false} StartInvariant(s: seq<Bit>, size: nat)
    requires size >= 1
    ensures Invariant(s, size, Start(size), 0)
  {
  }

  predicate RunInvariant(s: seq<Bit>, size: nat, n: nat)
    requires n <= |s| && n <= size && size >= 1
  {
    Run(s, size, n).Ok? ==> Invariant(s, size, Run(s, size, n).value, n)
  }

  lemma {:induction false} RunStepKeepsInvariant(s: seq<Bit>, size: nat, n: nat)
    requires 0 < n <= |s| && n <= size && size >= 1
    requires RunInvariant(s, size, n - 1)
    ensures RunInvariant(s, size, n)
  {
    if Run(s, size, n).Ok? {
      RunUnfolds(s, size, n);
      var prev := Run(s, size, n - 1).value;
      assert Step(s, size, prev, n - 1) == JavaLang.Ok(Run(s, size, n).value);
      StepToKeepsInvariant(s, size, prev, n - 1, Run(s, size, n).value, n);
    }
  }

  lemma {:induction false} RunKeepsInvariant(s: seq<Bit>, size: nat, n: nat)
    requires n <= |s| && n <= size && size >= 1
    ensures RunInvariant(s, size, n)
    decreases n
  {
    if n == 0 {
      StartInvariant(s, size);
    } else {
      RunKeepsInvariant(s, size, n - 1);
      RunStepKeepsInvariant(s, size, n);
    }
  }

  /** A block of zeros ending in a single one. */
  predicate LoneFinalOne(s: seq<Bit>) {
    |s| >= 1 && s[|s| - 1] == 1 && forall i :: 0 <= i < |s| - 1 ==> s[i] == 0
  }

  /** With arrays of M entries, as written, the loop over a block of M
      bits throws exactly on the block 0 .. 0 1. */
  lemma {:induction false} RunFailsOnLoneFinalOne(s: seq<Bit>, n: nat)
    requires 1 <= n <= |s|
    ensures Run(s, |s|, n).Err? <==> n == |s| && LoneFinalOne(s)
    ensures Run(s, |s|, n).Err? ==> Run(s, |s|, n).exc == JavaLang.ArrayIndexOutOfBounds
  {
    if n < |s| {
      RunOkBeforeLast(s, n);
    } else {
      LastRoundFails(s);
    }
  }

  /** Every round but the last succeeds with arrays of M entries. */
  lemma {:induction false} RunOkBeforeLast(s: seq<Bit>, n: nat)
    requires n < |s|
    ensures Run(s, |s|, n).Ok?
    decreases n
  {
    if n > 0 {
      RunOkBeforeLast(s, n - 1);
      StepOkBeforeLast(s, n - 1);
    }
  }

  lemma StepOkBeforeLast(s: seq<Bit>, k: nat)
    requires k + 1 < |s| && Run(s, |s|, k).Ok?
    ensures Run(s, |s|, k + 1).Ok?
  {
    RunKeepsInvariant(s, |s|, k);
    StepFails(s, |s|, Run(s, |s|, k).value, k);
    assert Step(s, |s|, Run(s, |s|, k).value, k).Ok?;
  }

  /** The last round throws exactly when L is still 0, that is when only
      zeros came before, and the last bit is a one. */
  lemma LastRoundFails(s: seq<Bit>)
    requires |s| >= 1
    ensures Run(s, |s|, |s|).Err? <==> LoneFinalOne(s)
    ensures Run(s, |s|, |s|).Err? ==> Run(s, |s|, |s|).exc == JavaLang.ArrayIndexOutOfBounds
  {
    var k := |s| - 1;
    if k > 0 {
      RunOkBeforeLast(s, k);
    }
    RunKeepsInvariant(s, |s|, k);
    var r := Run(s, |s|, k).value;
    StepFails(s, |s|, r, k);
    assert Run(s, |s|, |s|) == Step(s, |s|, r, k);
    assert LoneFinalOne(s) <==> ZeroPrefix(s, k) && s[k] == 1;
  }

  /** With arrays of M + 1 entries no write falls outside, and the length
      found is at most M and generates the whole block. */
  lemma {:induction false} CorrectedRunSucceeds(s: seq<Bit>, n: nat)
    requires n <= |s|
    ensures Run(s, |s| + 1, n).Ok?
    ensures Invariant(s, |s| + 1, Run(s, |s| + 1, n).value, n)
  {
    CorrectedRunOk(s, n);
    RunKeepsInvariant(s, |s| + 1, n);
  }

  lemma {:induction false} CorrectedRunOk(s: seq<Bit>, n: nat)
    requires n <= |s|
    ensures Run(s, |s| + 1, n).Ok?
    decreases n
  {
    if n > 0 {
      CorrectedRunOk(s, n - 1);
      CorrectedRunStep(s, n);
    }
  }

  /** One more round on arrays of M + 1 entries after rounds that did not
      throw does not throw either. */
  lemma CorrectedRunStep(s: seq<Bit>, n: nat)
    requires 0 < n <= |s| && Run(s, |s| + 1, n - 1).Ok?
    ensures Run(s, |s| + 1, n).Ok?
  {
    var r := Run(s, |s| + 1, n - 1).value;
    CorrectedStepOk(s, n - 1);
    assert Step(s, |s| + 1, r, n - 1).Ok?;
  }

  /** On arrays of M + 1 entries a round never throws. */
  lemma {:induction false} CorrectedStepOk(s: seq<Bit>, n: nat)
    requires n < |s| && Run(s, |s| + 1, n).Ok?
    ensures Step(s, |s| + 1, Run(s, |s| + 1, n).value, n).Ok?
  {
    RunKeepsInvariant(s, |s| + 1, n);
    StepFails(s, |s| + 1, Run(s, |s| + 1, n).value, n);
  }

  lemma {:induction false} RunUnfolds(s: seq<Bit>, size: nat, n: nat)
    requires 0 < n <= |s| && n <= size && size >= 1 && Run(s, size, n).Ok?
    ensures Run(s, size, n - 1).Ok?
    ensures Step(s, size, Run(s, size, n - 1).value, n - 1) == JavaLang.Ok(Run(s, size, n).value)
  {
  }

  /** The linear complexity of one block, as the corrected loop finds it. */
  function Complexity(s: seq<Bit>): (l: int)
    ensures 0 <= l <= |s|
    ensures l == 0 <==> forall i :: 0 <= i < |s| ==> s[i] == 0
  {
    CorrectedRunSucceeds(s, |s|);
    Run(s, |s| + 1, |s|).value.l
  }

  /** The register of length Complexity(s) whose polynomial reproduces
      every bit of the block from the L bits before it. */
  lemma {:induction false} ComplexityGenerates(s: seq<Bit>)
    ensures var r := Run(s, |s| + 1, |s|);
      r.Ok? && r.value.l == Complexity(s) && r.value.c[0] == 1
      && (forall i :: Complexity(s) < i < |r.value.c| ==> r.value.c[i] == 0)
      && Generates(r.value.c, Complexity(s), s, |s|)
  {
    CorrectedRunSucceeds(s, |s|);
  }

  /** Where the as-written loop succeeds it agrees with the corrected one:
      its arrays are the corrected ones without their last, zero, entry. */
  predicate Extends(r1: Register, r2: Register) {
    r2.c == r1.c + [0] && r2.b == r1.b + [0] && r2.l == r1.l && r2.m == r1.m
  }

  lemma {:induction false} AsWrittenAgrees(s: seq<Bit>, n: nat)
    requires 1 <= n <= |s| && Run(s, |s|, n).Ok?
    ensures Run(s, |s| + 1, n).Ok? && Extends(Run(s, |s|, n).value, Run(s, |s| + 1, n).value)
    decreases n
  {
    if n == 1 {
      assert Start(|s| + 1) == Register(Start(|s|).c + [0], Start(|s|).b + [0], 0, -1) by {
        assert [1] + Zeros(|s|) == [1] + Zeros(|s| - 1) + [0];
      }
      StepAgrees(s, Start(|s|), Start(|s| + 1), 0);
    } else {
      AsWrittenAgrees(s, n - 1);
      RunKeepsInvariant(s, |s|, n - 1);
      StepAgrees(s, Run(s, |s|, n - 1).value, Run(s, |s| + 1, n - 1).value, n - 1);
    }
  }

  lemma {:induction false} StepAgrees(s: seq<Bit>, r1: Register, r2: Register, n: nat)
    requires n < |s| && Shaped(r1, |s|, n) && Shaped(r2, |s| + 1, n) && Extends(r1, r2)
    requires Binary(r1.b)
    requires Step(s, |s|, r1, n).Ok?
    ensures Step(s, |s| + 1, r2, n).Ok? && Extends(Step(s, |s|, r1, n).value, Step(s, |s| + 1, r2, n).value)
  {
    assert JavaSum(r1.c, s, n, r1.l) == JavaSum(r2.c, s, n, r2.l) by {
      JavaSumOfExtension(r1.c, r2.c, s, n, r1.l);
    }
    if JavaSum(r1.c, s, n, r1.l) % 2 == 1 {
      var t := n - r1.m;
      ShiftedExtension(r1.b, t);
      XorExtension(r1.c, Shifted(r1.b, t).value);
    }
  }

  lemma {:induction false} ShiftedExtension(b: seq<int>, t: nat)
    requires 1 <= t <= |b| && Binary(b) && Shifted(b, t).Ok?
    ensures Shifted(b + [0], t).Ok? && Shifted(b + [0], t).value == Shifted(b, t).value + [0]
  {
    ShiftedShape(b, t, |b|);
    ShiftedFails(b + [0], t);
    assert (b + [0])[.. |b| + 1 - t] == b[.. |b| - t] + [0];
  }

  lemma {:induction false} XorExtension(c: seq<int>, p: seq<int>)
    requires |c| == |p|
    ensures Xor(c + [0], p + [0]) == Xor(c, p) + [0]
  {
  }

  lemma {:induction false} JavaSumOfExtension(c1: seq<int>, c2: seq<int>, s: seq<Bit>, n: int, i: nat)
    requires i < |c1| && c2 == c1 + [0] && i <= n < |s|
    ensures JavaSum(c1, s, n, i) == JavaSum(c2, s, n, i)
    decreases i
  {
    if i > 0 {
      JavaSumOfExtension(c1, c2, s, n, i - 1);
    }
  }

  /** The as-written loop either throws or finds the corrected length. */
  lemma {:induction false} AsWrittenComplexity(s: seq<Bit>)
    requires |s| >= 1
    ensures Run(s, |s|, |s|).Err? <==> LoneFinalOne(s)
    ensures Run(s, |s|, |s|).Ok? ==> Run(s, |s|, |s|).value.l == Complexity(s)
  {
    RunFailsOnLoneFinalOne(s, |s|);
    if Run(s, |s|, |s|).Ok? {
      AsWrittenAgrees(s, |s|);
    }
  }

  /** Block 0 0 1 of a three-bit blockLength throws. */
  lemma {:induction false} LoneFinalOneThrows()
    ensures Run([0, 0, 1], 3, 3) == JavaLang.Err(JavaLang.ArrayIndexOutOfBounds)
  {
    RunFailsOnLoneFinalOne([0, 0, 1], 3);
  }

  // ---------------------------------------------------------------------
  // Classes of T'

  /** mean = M/2 + (9 + sign)/36 - (M/3 + 2/9) / 2^M, with sign -1 for odd M. */
  function Mean(m: nat): Double
    requires m >= 1
  {
    var sign := if (m + 1) % 2 == 0 then -1 else 1;
    Sub(Add(Div(Of(m), Finite(2.0)), Div(Add(Finite(9.0), Of(sign)), Finite(36.0))),
        Mul(Div(Finite(1.0), MathFunctions.TwoTo(m)), Add(Div(Of(m), Finite(3.0)), Div(Finite(2.0), Finite(9.0)))))
  }

  /** T' = sign * (L - mean) + 2/9, with sign 1 for even M. */
  function TPrime(m: nat, l: int): Double
    requires m >= 1
  {
    var sign := if m % 2 == 0 then 1 else -1;
    Add(Mul(Of(sign), Sub(Of(l), Mean(m))), Div(Finite(2.0), Finite(9.0)))
  }

  /** The if-chain that picks nu[0] .. nu[6]; NaN falls through to nu[6]. */
  function Class(t: Double): (c: nat)
    ensures c <= K
  {
    if Le(t, Finite(-2.5)) then 0
    else if Gt(t, Finite(-2.5)) && Le(t, Finite(-1.5)) then 1
    else if Gt(t, Finite(-1.5)) && Le(t, Finite(-0.5)) then 2
    else if Gt(t, Finite(-0.5)) && Le(t, Finite(0.5)) then 3
    else if Gt(t, Finite(0.5)) && Le(t, Finite(1.5)) then 4
    else if Gt(t, Finite(1.5)) && Le(t, Finite(2.5)) then 5
    else 6
  }

  /** The classes are the intervals (-inf, -2.5], (-2.5, -1.5], ..,
      (1.5, 2.5], (2.5, +inf), and NaN. */
  lemma {:induction false} ClassIsInterval(t: Double, c: nat)
    requires c <= K
    ensures t.Finite? ==>
      (Class(t) == c <==>
        (c == 0 ==> t.v <= -2.5)
        && (1 <= c <= 5 ==> c as real - 3.5 < t.v <= c as real - 2.5)
        && (c == 6 ==> t.v > 2.5))
    ensures t == NegInf ==> Class(t) == 0
    ensures t == PosInf || t == NaN ==> Class(t) == 6
  {
  }

  /** nu[c]: how many of the classes are c. */
  function Count(cs: seq<nat>, c: nat): (r: nat)
    ensures r <= |cs|
  {
    if |cs| == 0 then 0 else Count(cs[.. |cs| - 1], c) + (if cs[|cs| - 1] == c then 1 else 0)
  }

  function Tally(cs: seq<nat>): (nu: seq<nat>)
    ensures |nu| == K + 1
    ensures forall c :: 0 <= c <= K ==> nu[c] == Count(cs, c)
  {
    seq(K + 1, c requires 0 <= c <= K => Count(cs, c))
  }

  function Sum(xs: seq<nat>): nat {
    if |xs| == 0 then 0 else Sum(xs[.. |xs| - 1]) + xs[|xs| - 1]
  }

  /** Every block lands in exactly one class, so the classes hold all N. */
  lemma {:induction false} TallyTotal(cs: seq<nat>)
    requires forall i :: 0 <= i < |cs| ==> cs[i] <= K
    ensures Sum(Tally(cs)) == |cs|
  {
    PrefixSums(cs, K + 1);
    assert Tally(cs)[.. K + 1] == Tally(cs);
    CountBelowAll(cs, K + 1);
  }

  /** Sum over c < j of Count(cs, c). */
  function CountBelow(cs: seq<nat>, j: nat): nat {
    if j == 0 then 0 else CountBelow(cs, j - 1) + Count(cs, j - 1)
  }

  lemma {:induction false} PrefixSums(cs: seq<nat>, j: nat)
    requires j <= K + 1
    ensures Sum(Tally(cs)[.. j]) == CountBelow(cs, j)
    decreases j
  {
    if j > 0 {
      PrefixSums(cs, j - 1);
      assert Tally(cs)[.. j][.. j - 1] == Tally(cs)[.. j - 1];
    } else {
      assert Tally(cs)[.. 0] == [];
    }
  }

  /** Counting the classes below j counts the entries below j. */
  lemma {:induction false} CountBelowAll(cs: seq<nat>, j: nat)
    requires forall i :: 0 <= i < |cs| ==> cs[i] < j
    ensures CountBelow(cs, j) == |cs|
    decreases |cs|
  {
    if |cs| > 0 {
      var init := cs[.. |cs| - 1];
      CountBelowAll(init, j);
      CountBelowStep(init, cs[|cs| - 1], j);
      assert init + [cs[|cs| - 1]] == cs;
    } else {
      CountBelowEmpty(cs, j);
    }
  }

  lemma {:induction false} CountBelowStep(init: seq<nat>, x: nat, j: nat)
    ensures CountBelow(init + [x], j) == CountBelow(init, j) + (if x < j then 1 else 0)
    decreases j
  {
    if j > 0 {
      CountBelowStep(init, x, j - 1);
      assert (init + [x])[.. |init|] == init;
    }
  }

  lemma {:induction false} CountBelowEmpty(cs: seq<nat>, j: nat)
    requires |cs| == 0
    ensures CountBelow(cs, j) == 0
    decreases j
  {
    if j > 0 {
      CountBelowEmpty(cs, j - 1);
    }
  }

  // ---------------------------------------------------------------------
  // isRandom

  /** chi2 = sum over the classes of (nu[i] - N pi[i])^2 / (N pi[i]). */
  function ChiSquared(k: MathFunctions.Kernels, nu: seq<nat>, n: nat, i: nat): Double
    requires i <= |nu| && i <= |PI|
  {
    if i == 0 then Finite(0.0)
    else
      var expected := Mul(Of(n), Finite(PI[i - 1]));
      Add(ChiSquared(k, nu, n, i - 1), Div(Square(Sub(Of(nu[i - 1]), expected)), expected))
  }

  /** pValue = igamc(K / 2, chi2 / 2). */
  function PValue(k: MathFunctions.Kernels, nu: seq<nat>, n: nat): Double
    requires |nu| == K + 1
  {
    MathFunctions.IGammaC(k, Finite(K as real / 2.0), Div(ChiSquared(k, nu, n, K + 1), Finite(2.0))).0
  }

  lemma {:induction false} BlocksFit(len: nat, m: nat, count: nat, ii: nat)
    requires m >= 1 && count <= len / m && ii < count
    ensures (ii + 1) * m <= len
  {
    assert (ii + 1) * m <= count * m <= (len / m) * m <= len;
  }

  /** Block ii: bits ii * M .. (ii + 1) * M - 1 of the stream. */
  function Block(bits: seq<Bit>, m: nat, ii: nat): (s: seq<Bit>)
    requires m >= 1 && ii < |bits| / m
    ensures |s| == m
  {
    BlocksFit(|bits|, m, |bits| / m, ii);
    bits[ii * m .. (ii + 1) * m]
  }

  /** The class of each of the first `count` blocks. */
  function Classes(bits: seq<Bit>, m: nat, count: nat): (cs: seq<nat>)
    requires m >= 1 && count <= |bits| / m
    ensures |cs| == count && forall i :: 0 <= i < count ==> cs[i] <= K
  {
    if count == 0 then []
    else Classes(bits, m, count - 1) + [Class(TPrime(m, Complexity(Block(bits, m, count - 1))))]
  }

  /** nu: the number of blocks in each class. */
  function Frequencies(bits: seq<Bit>, m: nat): (nu: seq<nat>)
    requires m >= 1
    ensures |nu| == K + 1 && Sum(nu) == |bits| / m
  {
    var cs := Classes(bits, m, |bits| / m);
    TallyTotal(cs);
    Tally(cs)
  }

  /** isRandom(stream), with the arrays one entry longer than written:
      the new int[M] throws for a negative M, n / M for M = 0; otherwise
      only pValue is stored and the returned verdict is pValue < alpha.
      There is no minimum length. */
  function IsRandom(t: State, bits: seq<Bit>, k: MathFunctions.Kernels): (r: Result<(State, bool)>)
    ensures t.blockLength < 0 ==> r == JavaLang.Err(JavaLang.NegativeArraySize)
    ensures t.blockLength == 0 ==> r == JavaLang.Err(JavaLang.Arithmetic)
    ensures t.blockLength > 0 ==>
      r.Ok?
      && r.value.0 == t.(base := t.base.(pValue := r.value.0.base.pValue))
      && r.value.0.base.pValue == PValue(k, Frequencies(bits, t.blockLength), |bits| / t.blockLength)
      && (r.value.1 <==> Lt(r.value.0.base.pValue, t.base.alpha))
  {
    var m := t.blockLength;
    if m < 0 then JavaLang.Err(JavaLang.NegativeArraySize)
    else if m == 0 then JavaLang.Err(JavaLang.Arithmetic)
    else
      var p := PValue(k, Frequencies(bits, m), |bits| / m);
      JavaLang.Ok((t.(base := t.base.(pValue := p)), Lt(p, t.base.alpha)))
  }

  /** The verdict is inverted: a p-value at or above alpha returns false. */
  lemma {:induction false} HighPValueRejected(t: State, bits: seq<Bit>, k: MathFunctions.Kernels)
    requires t.blockLength > 0
    requires Passes(IsRandom(t, bits, k).value.0.base.pValue, t.base.alpha)
    ensures !IsRandom(t, bits, k).value.1
  {
  }

  /** isRandom exactly as written: arrays of M entries, so the loop over a
      block 0 .. 0 1 throws; otherwise the same result as IsRandom. */
  function IsRandomAsWritten(t: State, bits: seq<Bit>, k: MathFunctions.Kernels): (r: Result<(State, bool)>)
    ensures t.blockLength <= 0 ==> r == IsRandom(t, bits, k)
  {
    var m := t.blockLength;
    if m <= 0 then IsRandom(t, bits, k)
    else if Throws(bits, m) then
      JavaLang.Err(JavaLang.ArrayIndexOutOfBounds)
    else IsRandom(t, bits, k)
  }

  /** Some block makes the loop on M-entry arrays throw. */
  predicate Throws(bits: seq<Bit>, m: nat)
    requires m >= 1
  {
    exists ii :: 0 <= ii < |bits| / m && Run(Block(bits, m, ii), m, m).Err?
  }

  /** The as-written test throws exactly when some block is 0 .. 0 1, and
      otherwise agrees with IsRandom. */
  lemma {:induction false} AsWrittenThrows(t: State, bits: seq<Bit>, k: MathFunctions.Kernels)
    requires t.blockLength > 0
    ensures IsRandomAsWritten(t, bits, k).Err?
      <==> exists ii :: 0 <= ii < |bits| / t.blockLength && LoneFinalOne(Block(bits, t.blockLength, ii))
    ensures IsRandomAsWritten(t, bits, k).Ok? ==> IsRandomAsWritten(t, bits, k) == IsRandom(t, bits, k)
  {
    var m := t.blockLength;
    forall ii | 0 <= ii < |bits| / m
      ensures Run(Block(bits, m, ii), m, m).Err? <==> LoneFinalOne(Block(bits, m, ii))
    {
      AsWrittenComplexity(Block(bits, m, ii));
    }
  }

  /** With M = 2 the stream 0 1 throws. */
  lemma {:induction false} AsWrittenThrowsOnZeroOne(t: State, k: MathFunctions.Kernels)
    requires t.blockLength == 2
    ensures IsRandomAsWritten(t, [0, 1], k) == JavaLang.Err(JavaLang.ArrayIndexOutOfBounds)
  {
    assert Throws([0, 1], 2) by {
      var b := Block([0, 1], 2, 0);
      assert b == [0, 1];
      RunFailsOnLoneFinalOne(b, 2);
    }
  }

  /** Without the extra entry the loop still finds L wherever it does not
      throw, so the corrected test changes nothing else. */
  lemma {:induction false} CorrectionOnlyRemovesThrow(t: State, bits: seq<Bit>, k: MathFunctions.Kernels)
    ensures IsRandomAsWritten(t, bits, k).Ok? ==> IsRandomAsWritten(t, bits, k) == IsRandom(t, bits, k)
    ensures IsRandomAsWritten(t, bits, k).Err? ==> IsRandom(t, bits, k).Ok? || t.blockLength <= 0
  {
    if t.blockLength > 0 {
      AsWrittenThrows(t, bits, k);
    }
  }
}
