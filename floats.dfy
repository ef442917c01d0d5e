/** Double-precision values as numpy and pandas produce them: a finite number,
    an infinity, or NaN. Only the parts of IEEE 754 the model meets are given:
    NaN marks a missing value (the first row of a diff, the last row of a
    shift, the standard deviation of an empty slice) and fails every
    comparison; an infinity arises from a non-zero number divided by zero, as
    when two rows share a time. Signed zeros are not distinguished. */
module Floats {

  datatype Float = Num(v: real) | PosInf | NegInf | NaN

  /** a < b in IEEE order; false whenever either operand is NaN. */
  predicate Lt(a: Float, b: Float)
  {
    match a
    case NaN => false
    case PosInf => false
    case NegInf => b.Num? || b.PosInf?
    case Num(x) => b.PosInf? || (b.Num? && x < b.v)
  }

  /** a <= b in IEEE order; false whenever either operand is NaN. */
  predicate Le(a: Float, b: Float)
  {
    Lt(a, b) || (a == b && !a.NaN?)
  }

  predicate Gt(a: Float, b: Float)
  {
    Lt(b, a)
  }

  predicate Ge(a: Float, b: Float)
  {
    Le(b, a)
  }

  /** x / y for finite x and y: a zero divisor gives a signed infinity, or
      NaN for 0 / 0, as numpy's float64 division does. */
  function Quotient(x: real, y: real): (q: Float)
    ensures q.Num? <==> y != 0.0
    ensures q.NaN? <==> y == 0.0 && x == 0.0
  {
    if y != 0.0 then Num(x / y)
    else if x > 0.0 then PosInf
    else if x < 0.0 then NegInf
    else NaN
  }

  /** Subtraction of two column entries, as IEEE 754 defines it: a NaN operand
      gives NaN, an infinity minus an infinity of the same sign gives NaN, and
      otherwise an infinite operand decides the result. */
  function Sub(a: Float, b: Float): (r: Float)
    ensures a.Num? && b.Num? ==> r == Num(a.v - b.v)
    ensures r.NaN? <==> a.NaN? || b.NaN? || (a.PosInf? && b.PosInf?) || (a.NegInf? && b.NegInf?)
  {
    match (a, b)
    case (NaN, _) => NaN
    case (_, NaN) => NaN
    case (Num(x), Num(y)) => Num(x - y)
    case (PosInf, PosInf) => NaN
    case (NegInf, NegInf) => NaN
    case (PosInf, _) => PosInf
    case (NegInf, _) => NegInf
    case (_, PosInf) => NegInf
    case (_, NegInf) => PosInf
  }

  /** Division of two column entries, as IEEE 754 defines it. A zero divisor is
      the positive zero that the difference of two equal entries gives, so an
      infinity divided by zero keeps its sign; an infinity over an infinity is
      NaN and a finite number over an infinity is zero. */
  function Div(a: Float, b: Float): (r: Float)
    ensures a.Num? && b.Num? ==> r == Quotient(a.v, b.v)
    ensures r.NaN? <==> a.NaN? || b.NaN? || (!a.Num? && !b.Num?) || (a.Num? && b.Num? && a.v == 0.0 && b.v == 0.0)
  {
    match (a, b)
    case (NaN, _) => NaN
    case (_, NaN) => NaN
    case (Num(x), Num(y)) => Quotient(x, y)
    case (Num(_), _) => Num(0.0)
    case (PosInf, Num(y)) => if y < 0.0 then NegInf else PosInf
    case (NegInf, Num(y)) => if y < 0.0 then PosInf else NegInf
    case (_, _) => NaN
  }

  /** np.absolute: NaN stays NaN. */
  function Abs(a: Float): (r: Float)
    ensures r.NaN? <==> a.NaN?
    ensures r.Num? ==> r.v >= 0.0
  {
    match a
    case Num(x) => Num(if x < 0.0 then -x else x)
    case PosInf => PosInf
    case NegInf => PosInf
    case NaN => NaN
  }
}
