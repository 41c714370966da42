/** Extended reals: the finite values, the two infinities and NaN that numpy's
    float64 arithmetic produces where the source divides without a guard. */
module ExtReals {

  datatype Ext = Fin(v: real) | PosInf | NegInf | NaN

  /** IEEE division of two finite values (signed zeros are not modelled). */
  function Div(a: real, b: real): (r: Ext)
    ensures b != 0.0 <==> r.Fin?
    ensures b == 0.0 ==> (r == NaN <==> a == 0.0)
    ensures b == 0.0 ==> (r == PosInf <==> a > 0.0)
  {
    if b != 0.0 then Fin(a / b)
    else if a > 0.0 then PosInf
    else if a < 0.0 then NegInf
    else NaN
  }

  /** The quotient times the divisor gives back the dividend. */
  lemma DivExact(a: real, b: real)
    requires b != 0.0
    ensures Div(a, b).v * b == a
  {
  }

  /** Dividing by a positive value keeps [0, b] inside [0, 1] and fixes its ends. */
  lemma DivUnit(a: real, b: real)
    requires 0.0 < b && 0.0 <= a <= b
    ensures Div(a, b).Fin? && 0.0 <= Div(a, b).v <= 1.0
    ensures a == 0.0 ==> Div(a, b).v == 0.0
    ensures a == b ==> Div(a, b).v == 1.0
  {
    var q := a / b;
    assert q * b == a;
  }

  /** Dividing by a positive value preserves order. */
  lemma DivMonotone(a: real, a': real, b: real)
    requires 0.0 < b && a <= a'
    ensures Div(a, b).v <= Div(a', b).v
  {
    var q, q' := a / b, a' / b;
    assert q * b == a && q' * b == a';
    if q > q' {
      PositiveProduct(q - q', b);
    }
  }

  lemma PositiveProduct(x: real, y: real)
    requires x > 0.0 && y > 0.0
    ensures x * y > 0.0
  {
  }

  /** Dividing a product by a non-zero value scales the first factor by the quotient. */
  lemma DivProduct(x: real, m: real, b: real)
    requires b != 0.0
    ensures Div(x * m, b).v == x * (m / b)
  {
  }

  /** `1 / x` on an extended real; the reciprocal of an infinity is zero. */
  function Recip(x: Ext): (r: Ext)
    ensures x.Fin? && x.v != 0.0 ==> r.Fin?
    ensures x == Fin(0.0) ==> r == PosInf
    ensures x.PosInf? || x.NegInf? ==> r == Fin(0.0)
    ensures x.NaN? ==> r.NaN?
  {
    match x
    case Fin(v) => Div(1.0, v)
    case PosInf => Fin(0.0)
    case NegInf => Fin(0.0)
    case NaN => NaN
  }

  /** A finite non-zero value times its reciprocal is 1. */
  lemma RecipInverse(x: Ext)
    requires x.Fin? && x.v != 0.0
    ensures Recip(x).v * x.v == 1.0
  {
    DivExact(1.0, x.v);
  }

  /** The product `a * x` of a finite value and an extended real. */
  function Mul(a: real, x: Ext): (r: Ext)
    ensures x.Fin? <==> r.Fin?
    ensures x.Fin? ==> r.v == a * x.v
    ensures x.NaN? || (!x.Fin? && a == 0.0) ==> r.NaN?
  {
    match x
    case Fin(v) => Fin(a * v)
    case PosInf => if a > 0.0 then PosInf else if a < 0.0 then NegInf else NaN
    case NegInf => if a > 0.0 then NegInf else if a < 0.0 then PosInf else NaN
    case NaN => NaN
  }

  /** The comparison `x < b`; every comparison with NaN is false. */
  predicate Less(x: Ext, b: real) {
    match x
    case Fin(v) => v < b
    case PosInf => false
    case NegInf => true
    case NaN => false
  }

  function Lift(s: seq<real>): (r: seq<Ext>)
    ensures |r| == |s| && forall i :: 0 <= i < |s| ==> r[i] == Fin(s[i])
  {
    seq(|s|, i requires 0 <= i < |s| => Fin(s[i]))
  }

  function LiftMatrix(m: seq<seq<real>>): (r: seq<seq<Ext>>)
    ensures |r| == |m| && forall i :: 0 <= i < |m| ==> r[i] == Lift(m[i])
  {
    seq(|m|, i requires 0 <= i < |m| => Lift(m[i]))
  }
}
