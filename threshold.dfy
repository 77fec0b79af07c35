/** Normalisation of the `threshold` option (`clampRatio`). */
module Threshold {
  import opened Wrappers
  import opened Types

  const DefaultThreshold: real := 1.0

  function Min(a: real, b: real): real { if a <= b then a else b }

  function Max(a: real, b: real): real { if a >= b then a else b }

  function Abs(x: real): real { if x < 0.0 then -x else x }

  /**
   * `Math.min(1, Math.max(0, value))`, except that an undefined, non-number
   * or NaN threshold becomes the default of 1.
   */
  function ClampRatio(value: Option<JsNumber>): (r: real)
    ensures 0.0 <= r <= 1.0
    ensures value.None? || value == Some(NaN) ==> r == DefaultThreshold
    ensures value.Some? && value.value.Finite? && 0.0 <= value.value.value <= 1.0 ==> r == value.value.value
    ensures value.Some? && value.value.Finite? && value.value.value > 1.0 ==> r == 1.0
    ensures value.Some? && value.value.Finite? && value.value.value < 0.0 ==> r == 0.0
    ensures value == Some(PositiveInfinity) ==> r == 1.0
    ensures value == Some(NegativeInfinity) ==> r == 0.0
  {
    match value
    case None => DefaultThreshold
    case Some(NaN) => DefaultThreshold
    case Some(PositiveInfinity) => 1.0
    case Some(NegativeInfinity) => 0.0
    case Some(Finite(x)) => Min(1.0, Max(0.0, x))
  }

  /** A finite threshold is moved to the nearest point of [0, 1]. */
  lemma ClampIsNearest(x: real, y: real)
    requires 0.0 <= y <= 1.0
    ensures Abs(ClampRatio(Some(Finite(x))) - x) <= Abs(y - x)
  {
  }

  /** Clamping an already clamped threshold changes nothing. */
  lemma ClampIdempotent(value: Option<JsNumber>)
    ensures ClampRatio(Some(Finite(ClampRatio(value)))) == ClampRatio(value)
  {
  }
}
