/** The shape of IEEE 754 double arithmetic that the routing code depends on: finite values are
    exact reals (rounding error is not modelled) and division by zero, infinities and NaN behave as
    in the standard.  Zero stands for +0.0. */
module Float64 {

  datatype F64 = Fin(v: real) | PosInf | NegInf | NaN

  const U32_MAX: nat := 0xFFFF_FFFF

  type U32 = n: nat | n <= U32_MAX

  /** Multiplication and division of reals, named so that proofs can treat them as black boxes. */
  function Times(x: real, y: real): real {
    x * y
  }

  function Quotient(x: real, y: real): real
    requires y != 0.0
  {
    x / y
  }

  function Add(a: F64, b: F64): F64 {
    match (a, b)
    case (NaN, _) => NaN
    case (_, NaN) => NaN
    case (Fin(x), Fin(y)) => Fin(x + y)
    case (Fin(_), _) => b
    case (_, Fin(_)) => a
    case _ => if a == b then a else NaN
  }

  function Mul(a: F64, b: F64): F64 {
    match (a, b)
    case (NaN, _) => NaN
    case (_, NaN) => NaN
    case (Fin(x), Fin(y)) => Fin(Times(x, y))
    case _ => Signed(Sign(a) * Sign(b))
  }

  function Div(a: F64, b: F64): F64 {
    match (a, b)
    case (NaN, _) => NaN
    case (_, NaN) => NaN
    case (Fin(x), Fin(y)) => if y == 0.0 then Signed(Sign(a)) else Fin(Quotient(x, y))
    case (Fin(_), _) => Fin(0.0)
    case (_, Fin(y)) => if y < 0.0 then Signed(-Sign(a)) else a
    case _ => NaN
  }

  /** `1.0 - a`. */
  function OneMinus(a: F64): F64 {
    match a
    case Fin(x) => Fin(1.0 - x)
    case PosInf => NegInf
    case NegInf => PosInf
    case NaN => NaN
  }

  function Sign(a: F64): int {
    match a
    case Fin(x) => if x > 0.0 then 1 else if x < 0.0 then -1 else 0
    case PosInf => 1
    case NegInf => -1
    case NaN => 0
  }

  /** The infinity of the given sign; NaN for the indeterminate forms 0/0 and 0*inf. */
  function Signed(sign: int): F64 {
    if sign > 0 then PosInf else if sign < 0 then NegInf else NaN
  }

  /** `f64::round`: to the nearest integer, halves away from zero. */
  function RoundReal(x: real): int {
    if x >= 0.0 then (x + 0.5).Floor else -((0.5 - x).Floor)
  }

  function Round(a: F64): F64 {
    if a.Fin? then Fin(RoundReal(a.v) as real) else a
  }

  function Floor(a: F64): F64 {
    if a.Fin? then Fin(a.v.Floor as real) else a
  }

  /** Rust's `as u32`: truncates, saturates at both ends, and sends NaN to 0. */
  function CastU32(a: F64): nat {
    match a
    case NaN => 0
    case NegInf => 0
    case PosInf => U32_MAX
    case Fin(x) =>
      if x <= 0.0 then 0
      else if x >= U32_MAX as real then U32_MAX
      else x.Floor
  }

  /** Comparisons with NaN are false. */
  predicate Between(lo: real, a: F64, hi: real) {
    a.Fin? && lo < a.v < hi
  }

  predicate NonNegative(a: F64) {
    a == PosInf || (a.Fin? && a.v >= 0.0)
  }

  lemma RoundNearest(x: real)
    ensures -0.5 <= RoundReal(x) as real - x <= 0.5
    ensures x >= 0.0 ==> RoundReal(x) >= 0
  {
  }

  /** Halves go away from zero. */
  lemma RoundTies(k: nat)
    ensures RoundReal(k as real + 0.5) == k + 1
    ensures RoundReal(-(k as real + 0.5)) == -(k + 1)
  {
    assert (k as real + 0.5 + 0.5).Floor == k + 1;
    assert (0.5 - -(k as real + 0.5)).Floor == k + 1;
  }

  /** `as u32` drops the fraction between 0 and the largest `u32`, and stops at either end. */
  lemma CastTruncates(x: real)
    ensures 0.0 <= x < 4294967296.0 ==> CastU32(Fin(x)) as real <= x < CastU32(Fin(x)) as real + 1.0
    ensures x < 0.0 ==> CastU32(Fin(x)) == 0
    ensures x >= 4294967296.0 ==> CastU32(Fin(x)) == 4294967295
    ensures CastU32(PosInf) == 4294967295 && CastU32(NegInf) == CastU32(NaN) == 0
  {
  }

  lemma RoundMonotone(x: real, y: real)
    requires 0.0 <= x <= y
    ensures RoundReal(x) <= RoundReal(y)
  {
  }

  lemma QuotientPositive(a: real, b: real)
    requires a > 0.0 && b > 0.0
    ensures Quotient(a, b) > 0.0
  {
  }

  lemma QuotientMonotone(a: real, b: real, c: real, d: real)
    requires 0.0 < a <= c && 0.0 < d <= b
    ensures Quotient(a, b) <= Quotient(c, d)
  {
    var x, y := a / b, c / d;
    assert x * b == a && y * d == c;
    assert x > 0.0;
    assert x * d <= x * b;
  }

  /** `s / t * c`, the share of `c` that a part `s` of a whole `t` receives. */
  function ShareOf(s: real, t: real, c: real): real
    requires t != 0.0
  {
    Times(Quotient(s, t), c)
  }

  lemma ShareWithinWhole(s: real, t: real, c: real)
    requires 0.0 <= s <= t && t > 0.0 && c >= 0.0
    ensures 0.0 <= ShareOf(s, t, c) <= c
  {
    var p := Quotient(s, t);
    assert 0.0 <= p <= 1.0;
    hide Quotient;
    Shrinks(p, c);
  }

  lemma Shrinks(p: real, c: real)
    requires 0.0 <= p <= 1.0 && c >= 0.0
    ensures 0.0 <= Times(p, c) <= c
  {
    ProductNonNegative(p, c);
    ProductNonNegative(1.0 - p, c);
    assert (1.0 - p) * c == c - p * c;
  }

  lemma ProductNonNegative(x: real, y: real)
    requires x >= 0.0 && y >= 0.0
    ensures x * y >= 0.0
  {
  }

  lemma ProductPositive(x: real, y: real)
    requires x > 0.0 && y > 0.0
    ensures x * y > 0.0
  {
  }

  lemma SharesDistribute(a: real, b: real, t: real, c: real)
    requires t != 0.0
    ensures ShareOf(a + b, t, c) == ShareOf(a, t, c) + ShareOf(b, t, c)
  {
    assert (a + b) / t == a / t + b / t;
  }

  lemma WholeShare(t: real, c: real)
    requires t != 0.0
    ensures ShareOf(t, t, c) == c
    ensures ShareOf(0.0, t, c) == 0.0
  {
  }

  lemma ShareMonotone(a: real, b: real, t: real, c: real)
    requires a <= b && t > 0.0 && c >= 0.0
    ensures ShareOf(a, t, c) <= ShareOf(b, t, c)
  {
    SharesDistribute(a, b - a, t, c);
    assert (b - a) / t >= 0.0;
    assert (b - a) / t * c >= 0.0;
  }
}
