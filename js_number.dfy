/**
  The part of JavaScript's number semantics that the size classifier relies on.

  A value is `undefined` (what a missing object property reads as), a finite
  number, one of the two infinities, or NaN. Finite numbers are exact reals:
  the rounding of IEEE-754 doubles is not modelled, and neither is the sign of
  zero (every zero here is +0, which is the only zero the classifier's
  non-negative sizes can divide by).
*/
module JsNumber {

  datatype Value = Undefined | Finite(r: real) | Infinity(positive: bool) | NaN

  /** `Number(v)`: undefined converts to NaN, numbers are unchanged. */
  function ToNumber(v: Value): (n: Value)
    ensures !n.Undefined?
    ensures v.Undefined? ==> n.NaN?
    ensures !v.Undefined? ==> n == v
  {
    if v.Undefined? then NaN else v
  }

  /** Unary minus. */
  function Negate(v: Value): (m: Value)
    ensures v.Finite? ==> m == Finite(-v.r)
    ensures v.Undefined? || v.NaN? ==> m.NaN?
  {
    var x := ToNumber(v);
    if x.Finite? then Finite(-x.r)
    else if x.Infinity? then Infinity(!x.positive)
    else NaN
  }

  /** `a + b` on numbers: NaN is absorbing and opposite infinities give NaN. */
  function Add(a: Value, b: Value): (s: Value)
    ensures a.Undefined? || a.NaN? || b.Undefined? || b.NaN? ==> s.NaN?
    ensures a.Finite? && b.Finite? ==> s == Finite(a.r + b.r)
  {
    var x, y := ToNumber(a), ToNumber(b);
    if x.NaN? || y.NaN? then NaN
    else if x.Infinity? && y.Infinity? then (if x.positive == y.positive then x else NaN)
    else if x.Infinity? then x
    else if y.Infinity? then y
    else Finite(x.r + y.r)
  }

  /** `a - b`. */
  function Sub(a: Value, b: Value): (d: Value)
    ensures a.Undefined? || a.NaN? || b.Undefined? || b.NaN? ==> d.NaN?
    ensures a.Finite? && b.Finite? ==> d == Finite(a.r - b.r)
    ensures a.Finite? && b.Infinity? ==> d == Infinity(!b.positive)
  {
    Add(a, Negate(b))
  }

  /** `a * b`: an infinity times zero is NaN, otherwise signs multiply. */
  function Mul(a: Value, b: Value): (p: Value)
    ensures a.Undefined? || a.NaN? || b.Undefined? || b.NaN? ==> p.NaN?
    ensures a.Finite? && b.Finite? ==> p == Finite(a.r * b.r)
    ensures a.Infinity? && b.Finite? && b.r < 0.0 ==> p == Infinity(!a.positive)
  {
    var x, y := ToNumber(a), ToNumber(b);
    if x.NaN? || y.NaN? then NaN
    else if x.Infinity? && y.Infinity? then Infinity(x.positive == y.positive)
    else if x.Infinity? then (if y.r == 0.0 then NaN else Infinity(x.positive == (y.r > 0.0)))
    else if y.Infinity? then (if x.r == 0.0 then NaN else Infinity(y.positive == (x.r > 0.0)))
    else assert x.r * y.r == a.r * b.r; Finite(x.r * y.r)
  }

  /** `a / b`: a non-zero number over zero is an infinity, zero over zero is NaN. */
  function Div(a: Value, b: Value): (q: Value)
    ensures a.Undefined? || a.NaN? || b.Undefined? || b.NaN? ==> q.NaN?
    ensures a.Finite? && b.Finite? && b.r != 0.0 ==> q == Finite(a.r / b.r)
    ensures a.Finite? && a.r > 0.0 && b == Finite(0.0) ==> q == Infinity(true)
    ensures a == Finite(0.0) && b == Finite(0.0) ==> q.NaN?
  {
    var x, y := ToNumber(a), ToNumber(b);
    if x.NaN? || y.NaN? || (x.Infinity? && y.Infinity?) then NaN
    else if x.Infinity? then Infinity(x.positive == (y.r >= 0.0))
    else if y.Infinity? then Finite(0.0)
    else if y.r != 0.0 then Finite(x.r / y.r)
    else if x.r == 0.0 then NaN
    else Infinity(x.r > 0.0)
  }

  /** `Math.abs(v)`. */
  function Abs(v: Value): (a: Value)
    ensures v.Finite? ==> a.Finite? && a.r >= 0.0 && (a.r == v.r || a.r == -v.r)
    ensures v.Infinity? ==> a == Infinity(true)
    ensures v.Undefined? || v.NaN? ==> a.NaN?
  {
    var x := ToNumber(v);
    if x.Finite? then Finite(if x.r < 0.0 then -x.r else x.r)
    else if x.Infinity? then Infinity(true)
    else NaN
  }

  /** `a < b`: every comparison that involves NaN (or undefined) is false. */
  predicate Less(a: Value, b: Value)
    ensures a.Undefined? || a.NaN? || b.Undefined? || b.NaN? ==> !Less(a, b)
    ensures a.Finite? && b.Finite? ==> (Less(a, b) <==> a.r < b.r)
    ensures a == Infinity(true) ==> !Less(a, b)
  {
    var x, y := ToNumber(a), ToNumber(b);
    if x.NaN? || y.NaN? then false
    else if x.Infinity? && y.Infinity? then !x.positive && y.positive
    else if x.Infinity? then !x.positive
    else if y.Infinity? then y.positive
    else x.r < y.r
  }

  /** Truthiness as used by `&&`, `||` and `!`: undefined, 0 and NaN are falsy. */
  predicate Truthy(v: Value)
    ensures Truthy(v) ==> !v.Undefined? && !v.NaN?
    ensures v.Finite? ==> (Truthy(v) <==> v.r != 0.0)
  {
    match v
    case Undefined => false
    case Finite(r) => r != 0.0
    case Infinity(_) => true
    case NaN => false
  }
}
