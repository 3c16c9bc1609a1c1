/**
 * The float64 values of the solver, as far as the model needs them: a real
 * number, or NaN. NaN is what the solver stores for an infeasible transition
 * (a next stock larger than the current one); every comparison against it is
 * false and every sum involving it is NaN again. Rounding and the infinities
 * are not modelled.
 */
module Floats {

  datatype Float64 = Num(val: real) | NaN

  /** `a > b` in IEEE arithmetic, for a `b` known not to be NaN. */
  function Gt(a: Float64, b: real): (r: bool)
    ensures a.NaN? ==> !r
    ensures a.Num? ==> (r <==> a.val > b)
  {
    a.Num? && a.val > b
  }

  /** `a + b` in IEEE arithmetic, for a `b` known not to be NaN. */
  function Add(a: Float64, b: real): (r: Float64)
    ensures r.NaN? <==> a.NaN?
    ensures r.Num? ==> r.val - b == a.val
  {
    match a
    case NaN => NaN
    case Num(x) => Num(x + b)
  }

  /** math.Abs on non-NaN values. */
  function Abs(x: real): (r: real)
    ensures r >= 0.0
    ensures r == x || r == -x
  {
    if x < 0.0 then -x else x
  }
}
