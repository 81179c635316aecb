/** Java `double` values as far as the tests' verdict logic depends on them:
    finite values are exact reals (no rounding and no overflow of finite
    results), plus the two infinities and NaN with IEEE 754 propagation and
    comparison rules. Signed zero is not distinguished. */
module Ieee {

  datatype Double = Finite(v: real) | PosInf | NegInf | NaN

  function Of(x: int): Double { Finite(x as real) }

  function Neg(a: Double): Double {
    match a
    case Finite(x) => Finite(-x)
    case PosInf => NegInf
    case NegInf => PosInf
    case NaN => NaN
  }

  function Abs(a: Double): (r: Double)
    ensures !a.NaN? ==> !r.NaN? && !r.NegInf?
    ensures a.NaN? ==> r.NaN?
  {
    match a
    case Finite(x) => Finite(if x < 0.0 then -x else x)
    case NaN => NaN
    case _ => PosInf
  }

  function Add(a: Double, b: Double): Double {
    match (a, b)
    case (Finite(x), Finite(y)) => Finite(x + y)
    case (NaN, _) => NaN
    case (_, NaN) => NaN
    case (PosInf, NegInf) => NaN
    case (NegInf, PosInf) => NaN
    case (PosInf, _) => PosInf
    case (NegInf, _) => NegInf
    case (_, PosInf) => PosInf
    case (_, NegInf) => NegInf
  }

  function Sub(a: Double, b: Double): Double { Add(a, Neg(b)) }

  /** Sign of a non-NaN value: -1, 0 or 1. */
  function Sign(a: Double): int
    requires !a.NaN?
  {
    match a
    case Finite(x) => if x < 0.0 then -1 else if x == 0.0 then 0 else 1
    case PosInf => 1
    case NegInf => -1
  }

  function Infinity(sign: int): Double
    requires sign != 0
  {
    if sign > 0 then PosInf else NegInf
  }

  function Mul(a: Double, b: Double): Double {
    if a.NaN? || b.NaN? then NaN
    else if a.Finite? && b.Finite? then Finite(a.v * b.v)
    else if Sign(a) * Sign(b) == 0 then NaN
    else Infinity(Sign(a) * Sign(b))
  }

  /** A sum of two non-negative values is non-negative (infinities
      included). */
  lemma AddNonNegative(a: Double, b: Double)
    requires Ge(a, Finite(0.0)) && Ge(b, Finite(0.0))
    ensures Ge(Add(a, b), Finite(0.0))
  {
  }

  /** Math.pow(x, 2), which the model squares exactly: never negative,
      and NaN only for NaN. */
  function Square(x: Double): (r: Double)
    ensures r.NaN? <==> x.NaN?
    ensures !r.NaN? ==> Ge(r, Finite(0.0))
  {
    Mul(x, x)
  }

  function Div(a: Double, b: Double): Double {
    if a.NaN? || b.NaN? then NaN
    else if a.Finite? && b.Finite? then
      if b.v != 0.0 then Finite(a.v / b.v)
      else if a.v == 0.0 then NaN
      else Infinity(Sign(a))
    else if !a.Finite? && !b.Finite? then NaN
    else if a.Finite? then Finite(0.0)
    else if Sign(b) == 0 then a
    else Infinity(Sign(a) * Sign(b))
  }

  /** `a < b`; false whenever either side is NaN. */
  predicate Lt(a: Double, b: Double) {
    match (a, b)
    case (NaN, _) => false
    case (_, NaN) => false
    case (Finite(x), Finite(y)) => x < y
    case (NegInf, NegInf) => false
    case (NegInf, _) => true
    case (PosInf, _) => false
    case (Finite(_), PosInf) => true
    case (Finite(_), NegInf) => false
  }

  /** `a == b`; NaN is equal to nothing, not even itself. */
  predicate Eq(a: Double, b: Double) { !a.NaN? && a == b }

  predicate Le(a: Double, b: Double) { Lt(a, b) || Eq(a, b) }
  predicate Gt(a: Double, b: Double) { Lt(b, a) }
  predicate Ge(a: Double, b: Double) { Le(b, a) }

  /** `(int) a`: NaN becomes 0, everything else is truncated toward zero
      and clamped to the range of int. */
  function ToInt(a: Double): (r: int)
    ensures -0x8000_0000 <= r <= 0x7fff_ffff
    ensures a.Finite? && 0.0 <= a.v < 0x7fff_ffff as real ==> r as real <= a.v < r as real + 1.0
    ensures a.NaN? ==> r == 0
  {
    match a
    case NaN => 0
    case PosInf => 0x7fff_ffff
    case NegInf => -0x8000_0000
    case Finite(x) =>
      var t := if x >= 0.0 then x.Floor else -((-x).Floor);
      if t > 0x7fff_ffff then 0x7fff_ffff else if t < -0x8000_0000 then -0x8000_0000 else t
  }

  /** Every ordered comparison with NaN is false. */
  lemma NaNComparesFalse(a: Double)
    ensures !Lt(NaN, a) && !Lt(a, NaN) && !Le(NaN, a) && !Le(a, NaN)
    ensures !Gt(NaN, a) && !Gt(a, NaN) && !Ge(NaN, a) && !Ge(a, NaN)
  {
  }

  /** On non-NaN values the comparisons form a total order. */
  lemma Trichotomy(a: Double, b: Double)
    requires !a.NaN? && !b.NaN?
    ensures Lt(a, b) || Eq(a, b) || Gt(a, b)
    ensures !(Lt(a, b) && Ge(a, b))
  {
  }
}
