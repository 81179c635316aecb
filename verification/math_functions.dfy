/** MathematicalFunctions: the special functions behind every p-value.

    The numerical cores (the Taylor series of erf, the continued fractions of
    erfc and of the complemented incomplete gamma, the power series of the
    incomplete gamma, the Stirling/rational evaluation of log-gamma, the
    elementary functions log, exp, sqrt and Math.pow with a fractional
    exponent, and the moduli of the real FFT of a signal given its factor
    table) are fields of a `Kernels` value and stay uninterpreted. What is modelled exactly is everything around
    them: the domain guards, the one-hop dispatch between complementary
    functions, the error flags, polynomial evaluation and the comparison
    helpers. Instead of being stored in the object, the error flags are
    returned next to each value. */
module MathFunctions {
  import opened Ieee
  import JavaLang

  const MACHEP: real := 1.11022302462515654042e-16
  const MAXNUM: real := 1.79769313486231570815e308
  const MAXLOG: real := 7.09782712893383996732e2
  const MAXLGM: real := 2.556348e305
  /** The constant Normal divides by. */
  const SQRT2: real := 1.414213562373095048801688724209698078569672
  /** Both ErF and ErFc switch method at |x| = 2.2. */
  const ERF_SWITCH: real := 2.2

  /** MathematicalErrors: its declaration is not part of this model; these
      are the three values the code assigns. */
  datatype MathError = None | Underflow | Overflow

  /** The `error` and `mathError` fields after a call. */
  datatype Flags = Flags(error: bool, mathError: MathError)

  const Clear: Flags := Flags(false, None)

  datatype Kernels = Kernels(
    ln: Double -> Double,
    exp: Double -> Double,
    sqrt: Double -> Double,
    lgammaValue: Double -> Double,
    igammaSeries: (Double, Double) -> Double,
    igammacFraction: (Double, Double) -> Double,
    erfSeries: real -> Double,
    erfcFraction: real -> Double,
    fftModuli: (seq<int>, seq<int>) -> seq<real>,
    pow: (Double, Double) -> Double)

  // ---------------------------------------------------------------------
  // Log-gamma and its overflow flag

  /** Math.floor(q) == q: q is a whole number (or infinite). */
  predicate Integral(q: Double) {
    match q
    case Finite(v) => v.Floor as real == v
    case NaN => false
    case _ => true
  }

  /** A whole x in [-34, 0]: the loop that divides by x, x + 1, ... on the
      way up to 2 meets u == 0 and sets loverf. */
  predicate Pole(x: Double) {
    Le(Finite(-34.0), x) && Le(x, Finite(0.0)) && Integral(x)
  }

  /** The inputs for which LGamma reports Overflow. */
  predicate LGammaOverflows(x: Double) {
    Gt(x, Finite(MAXLGM))
    || (Lt(x, Finite(-34.0)) && (Integral(Neg(x)) || Gt(Neg(x), Finite(MAXLGM))))
    || Pole(x)
  }

  /** The inputs for which LGamma returns MAXNUM instead of a value. sgngam
      is still 1 on each of these paths, so the sign is positive. */
  predicate LGammaSaturates(x: Double) {
    Gt(x, Finite(MAXLGM)) || (Lt(x, Finite(-34.0)) && Integral(Neg(x))) || Pole(x)
  }

  /** LGamma(x): below -34 it first evaluates LGamma(-x), whose flags
      survive; a whole -x, a pole in [-34, 0] or an x above MAXLGM saturates
      to MAXNUM. */
  function LGamma(k: Kernels, x: Double): (r: (Double, Flags))
    ensures r.1.error <==> r.1.mathError == Overflow
    ensures r.1.mathError != Underflow
    ensures r.1.mathError == Overflow <==> LGammaOverflows(x)
    ensures LGammaSaturates(x) ==> r == (Finite(MAXNUM), Flags(true, Overflow))
    ensures !LGammaOverflows(x) ==> r == (k.lgammaValue(x), Clear)
    decreases if Lt(x, Finite(-34.0)) then 1 else 0
  {
    if Lt(x, Finite(-34.0)) then
      var q := Neg(x);
      var inner := LGamma(k, q);
      if Integral(q) then (Finite(MAXNUM), Flags(true, Overflow))
      else (k.lgammaValue(x), inner.1)
    else if Pole(x) || Gt(x, Finite(MAXLGM)) then (Finite(MAXNUM), Flags(true, Overflow))
    else (k.lgammaValue(x), Clear)
  }

  /** The poles 0, -1 and -34 overflow to MAXNUM; 1 and 2 do not. */
  lemma LGammaAtPoles(k: Kernels)
    ensures LGamma(k, Finite(0.0)) == (Finite(MAXNUM), Flags(true, Overflow))
    ensures LGamma(k, Finite(-1.0)) == (Finite(MAXNUM), Flags(true, Overflow))
    ensures LGamma(k, Finite(-34.0)) == (Finite(MAXNUM), Flags(true, Overflow))
    ensures LGamma(k, Finite(1.0)) == (k.lgammaValue(Finite(1.0)), Clear)
    ensures LGamma(k, Finite(2.0)) == (k.lgammaValue(Finite(2.0)), Clear)
  {
  }

  // ---------------------------------------------------------------------
  // Incomplete gamma and its complement

  /** The guard both functions start with. */
  predicate OutsideDomain(a: Double, x: Double) { Le(x, Finite(0.0)) || Le(a, Finite(0.0)) }

  /** IGamma hands over to 1 - IGammaC exactly here. */
  predicate IGammaDelegates(a: Double, x: Double) { Gt(x, Finite(1.0)) && Gt(x, a) }

  /** IGammaC hands over to 1 - IGamma exactly here. */
  predicate IGammaCDelegates(a: Double, x: Double) { Lt(x, Finite(1.0)) || Lt(x, a) }

  /** a*log(x) - x - lgamma(a): the log of the common prefactor. */
  function LogPrefactor(k: Kernels, a: Double, x: Double): Double {
    Sub(Sub(Mul(a, k.ln(x)), x), LGamma(k, a).0)
  }

  predicate Underflows(k: Kernels, a: Double, x: Double) {
    Lt(LogPrefactor(k, a, x), Finite(-MAXLOG))
  }

  /** The part of IGamma/IGammaC after the guards and the dispatch: an
      underflowing prefactor gives 0 with Underflow, otherwise the numerical
      core runs and LGamma's flags stand. */
  function GammaCore(k: Kernels, a: Double, x: Double, core: Double): (r: (Double, Flags))
    ensures r.1.mathError == Underflow <==> Underflows(k, a, x)
    ensures r.1.mathError == Underflow ==> r == (Finite(0.0), Flags(true, Underflow))
    ensures r.1.mathError == Overflow <==> !Underflows(k, a, x) && LGammaOverflows(a)
    ensures !Underflows(k, a, x) ==> r.0 == core
  {
    if Underflows(k, a, x) then (Finite(0.0), Flags(true, Underflow))
    else (core, LGamma(k, a).1)
  }

  function IGammaCore(k: Kernels, a: Double, x: Double): (Double, Flags) {
    GammaCore(k, a, x, k.igammaSeries(a, x))
  }

  function IGammaCCore(k: Kernels, a: Double, x: Double): (Double, Flags) {
    GammaCore(k, a, x, k.igammacFraction(a, x))
  }

  /** Regularised lower incomplete gamma P(a, x). */
  function IGamma(k: Kernels, a: Double, x: Double): (r: (Double, Flags))
    ensures OutsideDomain(a, x) ==> r == (Finite(0.0), Clear)
    ensures !OutsideDomain(a, x) && IGammaDelegates(a, x) ==>
      r == (Sub(Finite(1.0), IGammaCCore(k, a, x).0), IGammaCCore(k, a, x).1)
    ensures !OutsideDomain(a, x) && !IGammaDelegates(a, x) ==> r == IGammaCore(k, a, x)
    decreases if IGammaDelegates(a, x) then 1 else 0
  {
    if OutsideDomain(a, x) then (Finite(0.0), Clear)
    else if IGammaDelegates(a, x) then
      var c := IGammaC(k, a, x);
      (Sub(Finite(1.0), c.0), c.1)
    else IGammaCore(k, a, x)
  }

  /** Regularised upper incomplete gamma Q(a, x). */
  function IGammaC(k: Kernels, a: Double, x: Double): (r: (Double, Flags))
    ensures OutsideDomain(a, x) ==> r == (Finite(1.0), Clear)
    ensures !OutsideDomain(a, x) && IGammaCDelegates(a, x) ==>
      r == (Sub(Finite(1.0), IGammaCore(k, a, x).0), IGammaCore(k, a, x).1)
    ensures !OutsideDomain(a, x) && !IGammaCDelegates(a, x) ==> r == IGammaCCore(k, a, x)
    decreases if IGammaCDelegates(a, x) then 1 else 0
  {
    if OutsideDomain(a, x) then (Finite(1.0), Clear)
    else if IGammaCDelegates(a, x) then
      var g := IGamma(k, a, x);
      (Sub(Finite(1.0), g.0), g.1)
    else IGammaCCore(k, a, x)
  }

  /** IGamma and IGammaC are complementary wherever one of them delegates to
      the other (or the guard answers both), provided the numerical core
      that ends up running returns a finite value. At the boundary points
      x = 1 (with a <= 1) and x = a (with a >= 1) neither delegates and the
      two cores run independently. */
  lemma IGammaComplement(k: Kernels, a: Double, x: Double)
    requires a.Finite? && x.Finite?
    requires OutsideDomain(a, x) || IGammaDelegates(a, x) || IGammaCDelegates(a, x)
    requires IGammaDelegates(a, x) ==> IGammaCCore(k, a, x).0.Finite?
    requires IGammaCDelegates(a, x) ==> IGammaCore(k, a, x).0.Finite?
    ensures Add(IGamma(k, a, x).0, IGammaC(k, a, x).0) == Finite(1.0)
  {
  }

  /** Neither function delegates only on the boundary x = 1 or x = a. */
  lemma NoDelegationOnlyOnBoundary(a: Double, x: Double)
    requires a.Finite? && x.Finite? && !OutsideDomain(a, x)
    requires !IGammaDelegates(a, x) && !IGammaCDelegates(a, x)
    ensures (x.v == 1.0 && a.v <= 1.0) || (x.v == a.v && a.v >= 1.0)
  {
  }

  // ---------------------------------------------------------------------
  // Error function and its complement

  /** ErF's own series branch: NaN stays NaN through the loop. */
  function ErfSeries(k: Kernels, x: Double): (r: Double)
    requires !Gt(Abs(x), Finite(ERF_SWITCH))
  {
    match x
    case Finite(v) => k.erfSeries(v)
    case _ => NaN
  }

  /** ErFc's own continued-fraction branch. On an infinite or NaN argument
      the first quotient b/d is NaN, the loop test is false at once and the
      result is NaN. */
  function ErfcFraction(k: Kernels, x: Double): Double {
    match x
    case Finite(v) => k.erfcFraction(v)
    case _ => NaN
  }

  function ErF(k: Kernels, x: Double): (r: Double)
    ensures !Gt(Abs(x), Finite(ERF_SWITCH)) ==> r == ErfSeries(k, x)
    ensures Gt(x, Finite(ERF_SWITCH)) ==> r == Sub(Finite(1.0), ErfcFraction(k, x))
    ensures Lt(x, Finite(-ERF_SWITCH)) ==>
      r == Sub(Finite(1.0), Sub(Finite(2.0), ErfcFraction(k, Neg(x))))
    decreases if Gt(Abs(x), Finite(ERF_SWITCH)) then 2 else 0
  {
    if Gt(Abs(x), Finite(ERF_SWITCH)) then Sub(Finite(1.0), ErFc(k, x))
    else ErfSeries(k, x)
  }

  function ErFc(k: Kernels, x: Double): (r: Double)
    ensures Lt(Abs(x), Finite(ERF_SWITCH)) ==> r == Sub(Finite(1.0), ErfSeries(k, x))
    ensures Ge(x, Finite(ERF_SWITCH)) ==> r == ErfcFraction(k, x)
    ensures Le(x, Finite(-ERF_SWITCH)) ==> r == Sub(Finite(2.0), ErfcFraction(k, Neg(x)))
    ensures !x.Finite? ==> r == NaN
    decreases if Lt(Abs(x), Finite(ERF_SWITCH)) || Lt(x, Finite(0.0)) then 1 else 0
  {
    if Lt(Abs(x), Finite(ERF_SWITCH)) then Sub(Finite(1.0), ErF(k, x))
    else if Lt(x, Finite(0.0)) then Sub(Finite(2.0), ErFc(k, Neg(x)))
    else ErfcFraction(k, x)
  }

  /** ErF and ErFc add up to one away from the switch point |x| = 2.2,
      provided the core that runs returns a finite value. */
  lemma ErfComplement(k: Kernels, x: Double)
    requires x.Finite? && x.v != ERF_SWITCH && x.v != -ERF_SWITCH
    requires -ERF_SWITCH < x.v < ERF_SWITCH ==> k.erfSeries(x.v).Finite?
    requires x.v > ERF_SWITCH ==> k.erfcFraction(x.v).Finite?
    requires x.v < -ERF_SWITCH ==> k.erfcFraction(-x.v).Finite?
    ensures Add(ErF(k, x), ErFc(k, x)) == Finite(1.0)
  {
  }

  /** Standard normal distribution function. */
  function Normal(k: Kernels, x: Double): (r: Double)
    ensures Gt(x, Finite(0.0)) ==>
      r == Mul(Finite(0.5), Add(Finite(1.0), ErF(k, Div(x, Finite(SQRT2)))))
    ensures !Gt(x, Finite(0.0)) ==>
      r == Mul(Finite(0.5), Sub(Finite(1.0), ErF(k, Div(Neg(x), Finite(SQRT2)))))
  {
    if Gt(x, Finite(0.0)) then
      Mul(Finite(0.5), Add(Finite(1.0), ErF(k, Div(x, Finite(SQRT2)))))
    else
      Mul(Finite(0.5), Sub(Finite(1.0), ErF(k, Div(Neg(x), Finite(SQRT2)))))
  }

  /** Normal(x) + Normal(-x) = 1 for every finite non-zero x, whatever erf
      is, as long as erf(|x|/SQRT2) is finite. */
  lemma NormalSymmetry(k: Kernels, x: real)
    requires x != 0.0
    requires ErF(k, Finite(if x < 0.0 then -x / SQRT2 else x / SQRT2)).Finite?
    ensures Add(Normal(k, Finite(x)), Normal(k, Finite(-x))) == Finite(1.0)
  {
    var e := ErF(k, Finite(if x < 0.0 then -x / SQRT2 else x / SQRT2));
    if x > 0.0 {
      assert Div(Finite(x), Finite(SQRT2)) == Finite(x / SQRT2);
      assert Div(Neg(Finite(-x)), Finite(SQRT2)) == Finite(x / SQRT2);
    } else {
      assert Div(Neg(Finite(x)), Finite(SQRT2)) == Finite(-x / SQRT2);
      assert Div(Finite(-x), Finite(SQRT2)) == Finite(-x / SQRT2);
    }
  }

  // ---------------------------------------------------------------------
  // Polynomial evaluation

  /** Sum of c[i] * x^(e - i) over i < k: the first k coefficients of a
      polynomial of degree e, highest power first. */
  function PolySum(c: seq<real>, x: real, k: nat, e: nat): real
    requires k <= |c| && k <= e + 1
  {
    if k == 0 then 0.0 else PolySum(c, x, k - 1, e) + c[k - 1] * Power(x, e - (k - 1))
  }

  function Power(x: real, n: nat): real {
    if n == 0 then 1.0 else x * Power(x, n - 1)
  }

  /** Raising every exponent by one multiplies the sum by x. */
  lemma {:induction false} PolySumShift(c: seq<real>, x: real, k: nat, e: nat)
    requires k <= |c| && k <= e + 1
    ensures PolySum(c, x, k, e + 1) == x * PolySum(c, x, k, e)
  {
    if k > 0 {
      PolySumShift(c, x, k - 1, e);
      assert Power(x, e + 1 - (k - 1)) == x * Power(x, e - (k - 1));
    }
  }

  /** One Horner step appends the next coefficient. */
  lemma HornerStep(c: seq<real>, x: real, k: nat)
    requires 1 <= k < |c|
    ensures PolySum(c, x, k + 1, k) == PolySum(c, x, k, k - 1) * x + c[k]
  {
    PolySumShift(c, x, k, k - 1);
  }

  /** PolEvl(x, coef, N): Horner evaluation of coef[0]*x^N + ... + coef[N].
      The do-while loop needs N >= 1 and N + 1 coefficients; on any other
      input it runs off the end of the array. */
  method PolEvl(x: real, coef: seq<real>, n: int) returns (r: JavaLang.Result<real>)
    ensures r.Ok? <==> (1 <= n && n + 1 <= |coef|)
    ensures r.Ok? ==> r.value == PolySum(coef, x, n + 1, n)
  {
    if !(1 <= n && n + 1 <= |coef|) {
      return JavaLang.Err(JavaLang.ArrayIndexOutOfBounds);
    }
    var ans := coef[0];
    var index := 1;
    while index <= n
      invariant 1 <= index <= n + 1
      invariant ans == PolySum(coef, x, index, index - 1)
    {
      HornerStep(coef, x, index);
      ans := ans * x + coef[index];
      index := index + 1;
    }
    return JavaLang.Ok(ans);
  }

  /** P1Evl(x, coef, N): the same with an implicit leading coefficient 1,
      that is x^N + coef[0]*x^(N-1) + ... + coef[N-1]. Needs N >= 2 and N
      coefficients. */
  method P1Evl(x: real, coef: seq<real>, n: int) returns (r: JavaLang.Result<real>)
    ensures r.Ok? <==> (2 <= n && n <= |coef|)
    ensures r.Ok? ==> r.value == PolySum([1.0] + coef, x, n + 1, n)
  {
    if !(2 <= n && n <= |coef|) {
      return JavaLang.Err(JavaLang.ArrayIndexOutOfBounds);
    }
    var c := [1.0] + coef;
    var ans := x + coef[0];
    assert PolySum(c, x, 1, 0) == 1.0;
    HornerStep(c, x, 1);
    var index := 1;
    while index < n
      invariant 1 <= index <= n
      invariant ans == PolySum(c, x, index + 1, index)
    {
      HornerStep(c, x, index + 1);
      ans := ans * x + coef[index];
      index := index + 1;
    }
    return JavaLang.Ok(ans);
  }

  // ---------------------------------------------------------------------
  // Comparison helpers

  /** max(x, y) = x < y ? y : x: a NaN second argument is ignored. */
  function Max(x: Double, y: Double): (r: Double)
    ensures !x.NaN? && !y.NaN? ==> Ge(r, x) && Ge(r, y) && (r == x || r == y)
    ensures y.NaN? ==> r == x
    ensures x.NaN? ==> r == x
  {
    if Lt(x, y) then y else x
  }

  /** min(x, y) = x > y ? y : x. */
  function Min(x: Double, y: Double): (r: Double)
    ensures !x.NaN? && !y.NaN? ==> Le(r, x) && Le(r, y) && (r == x || r == y)
    ensures y.NaN? ==> r == x
    ensures x.NaN? ==> r == x
  {
    if Gt(x, y) then y else x
  }

  /** isNonPositive returns a double, 1.0 or 0.0, not a boolean. */
  function IsNonPositive(x: Double): (r: Double)
    ensures r == Finite(1.0) || r == Finite(0.0)
    ensures r == Finite(1.0) <==> Le(x, Finite(0.0))
  {
    if Le(x, Finite(0.0)) then Finite(1.0) else Finite(0.0)
  }

  /** Math.pow(2, e) from e = -1 on: exact up to 2^1023, +Infinity beyond. */
  function TwoTo(e: int): (r: Double)
    requires e >= -1
    ensures 0 <= e < 1024 ==> r.Finite? && r.v >= 1.0
    ensures e == -1 ==> r == Finite(0.5)
  {
    if e >= 1024 then PosInf else if e == -1 then Finite(0.5) else Finite(JavaLang.Pow2(e) as real)
  }

  predicate IsPositive(x: Double) { Gt(x, Finite(0.0)) }
  predicate IsNegative(x: Double) { Lt(x, Finite(0.0)) }
  predicate IsGreaterThanOne(x: Double) { Gt(x, Finite(1.0)) }
  predicate IsZero(x: Double) { Eq(x, Finite(0.0)) }
  predicate IsOne(x: Double) { Eq(x, Finite(1.0)) }

  /** The out-of-range test `isNegative(p) || isGreaterThanOne(p)` the tests
      use rejects exactly the non-NaN values outside [0, 1]: a NaN passes. */
  lemma OutOfRangeCheck(p: Double)
    ensures (IsNegative(p) || IsGreaterThanOne(p)) <==>
      (!p.NaN? && !(Le(Finite(0.0), p) && Le(p, Finite(1.0))))
  {
  }

  // ---------------------------------------------------------------------
  // Poisson-type probability used by the overlapping template test

  /** MAXLGM is a whole number: a whole n exceeds it exactly when n exceeds
      this integer. */
  const MAXLGM_WHOLE: int := 255634800000000000000000000000000000000000000000000000000000000000000000000000000000000000000000000000000000000000000000000000000000000000000000000000000000000000000000000000000000000000000000000000000000000000000000000000000000000000000000000000000000000000000000000000000000000000000000000000000000000000

  /** The value lgam(n) for a whole n, without its flags: every whole n
      at or below zero is a pole or the reflection of one, and past MAXLGM
      the result saturates. */
  function LogGammaOf(k: Kernels, n: int): (r: Double)
    ensures n <= 0 ==> r == Finite(MAXNUM)
    ensures 0 < n <= MAXLGM_WHOLE ==> r == k.lgammaValue(Of(n))
  {
    if n <= 0 || n > MAXLGM_WHOLE then Finite(MAXNUM) else k.lgammaValue(Of(n))
  }

  /** LogGammaOf is LGamma's value at every whole number. */
  lemma LogGammaOfAgrees(k: Kernels, n: int)
    ensures LogGammaOf(k, n) == LGamma(k, Of(n)).0
  {
    var x := Of(n);
    if n < -34 {
      assert Lt(x, Finite(-34.0)) && Neg(x) == Of(-n) && Integral(Of(-n));
    } else if n <= 0 {
      assert !Lt(x, Finite(-34.0)) && Pole(x);
    } else {
      assert !Lt(x, Finite(-34.0)) && !Pole(x);
    }
  }

  /** The exponent of the l-th summand of Pr(u, eta), added in the order
      the loop writes it. */
  function PrExponent(k: Kernels, u: int, eta: Double, l: int): Double {
    var a := Add(Sub(Neg(eta), Mul(Of(u), k.ln(Finite(2.0)))), Mul(Of(l), k.ln(eta)));
    Sub(Sub(Add(Sub(a, LogGammaOf(k, l + 1)), LogGammaOf(k, u)), LogGammaOf(k, l)), LogGammaOf(k, u - l + 1))
  }

  /** The l-th summand of Pr(u, eta). */
  function PrTerm(k: Kernels, u: int, eta: Double, l: int): Double {
    k.exp(PrExponent(k, u, eta, l))
  }

  /** Sum of the summands for l = 1 .. m. */
  function PrSum(k: Kernels, u: int, eta: Double, m: nat): Double {
    if m == 0 then Finite(0.0) else Add(PrSum(k, u, eta, m - 1), PrTerm(k, u, eta, m))
  }

  /** The value Pr(u, eta) returns: e^(-eta) for u = 0, the sum of the u
      summands for u > 0, and 0 for a negative u. */
  function PrOf(k: Kernels, u: int, eta: Double): (p: Double)
    ensures u == 0 ==> p == k.exp(Neg(eta))
    ensures u < 0 ==> p == Finite(0.0)
  {
    if u == 0 then k.exp(Neg(eta)) else if u < 0 then Finite(0.0) else PrSum(k, u, eta, u)
  }

  /** Every partial sum of summands is non-negative when exp never returns a
      negative value or NaN. */
  lemma {:induction false} PrSumNonNegative(k: Kernels, u: int, eta: Double, m: nat)
    requires forall x :: Ge(k.exp(x), Finite(0.0))
    ensures Ge(PrSum(k, u, eta, m), Finite(0.0))
  {
    if m > 0 {
      PrSumNonNegative(k, u, eta, m - 1);
      var e := PrExponent(k, u, eta, m);
      assert Ge(k.exp(e), Finite(0.0));
      AddNonNegative(PrSum(k, u, eta, m - 1), k.exp(e));
    }
  }

  /** Pr(u, eta) is a probability's sign: never negative and never NaN,
      provided exp is never negative or NaN. */
  lemma PrNonNegative(k: Kernels, u: int, eta: Double)
    requires forall x :: Ge(k.exp(x), Finite(0.0))
    ensures Ge(PrOf(k, u, eta), Finite(0.0))
  {
    if u > 0 {
      PrSumNonNegative(k, u, eta, u);
    }
  }

  /** Pr(u, eta): e^(-eta) for u = 0, the sum of u summands for u > 0, and
      0 for a negative u, for which the loop never runs. */
  method Pr(k: Kernels, u: int, eta: Double) returns (p: Double)
    ensures u == 0 ==> p == k.exp(Neg(eta))
    ensures u < 0 ==> p == Finite(0.0)
    ensures u > 0 ==> p == PrSum(k, u, eta, u)
    ensures p == PrOf(k, u, eta)
  {
    if u == 0 {
      return k.exp(Neg(eta));
    }
    var sum := Finite(0.0);
    var l := 1;
    while l <= u
      invariant 1 <= l <= (if u > 0 then u else 0) + 1
      invariant sum == PrSum(k, u, eta, l - 1)
    {
      sum := Add(sum, PrTerm(k, u, eta, l));
      l := l + 1;
    }
    return sum;
  }
}
