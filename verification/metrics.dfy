/** The out-of-range check of extracted lab metrics (web/src/lib/metrics.ts).
    Values and bounds arrive either as numbers or as the strings typed in the
    review form; `Number` converts both. */
module Metrics {
  import opened Wrappers
  import Numbers

  /** `number | string`. */
  datatype Scalar = NumV(n: real) | StrV(s: string)

  /** `Number(x)`: `None` is `NaN`. */
  function ToNumber(x: Scalar): Option<real> {
    match x
    case NumV(n) => Some(n)
    case StrV(s) => Numbers.NumberOf(s)
  }

  /** The bound a nullable, possibly non-numeric, reference value imposes. */
  function Bound(b: Option<Scalar>): Option<real> {
    if b.None? then None else ToNumber(b.value)
  }

  /** `checkOutOfRange`: a numeric value strictly below a numeric lower
      bound or strictly above a numeric upper bound. */
  function CheckOutOfRange(value: Option<Scalar>, refLow: Option<Scalar>, refHigh: Option<Scalar>): (r: bool)
    ensures value.None? ==> !r
    ensures value.Some? && ToNumber(value.value).None? ==> !r
    ensures r <==>
      && value.Some? && ToNumber(value.value).Some?
      && var v := ToNumber(value.value).value;
         (Bound(refLow).Some? && v < Bound(refLow).value) || (Bound(refHigh).Some? && v > Bound(refHigh).value)
  {
    if value.None? then false
    else
      match ToNumber(value.value)
      case None => false
      case Some(v) =>
        if refLow.Some? && ToNumber(refLow.value).Some? && v < ToNumber(refLow.value).value then true
        else if refHigh.Some? && ToNumber(refHigh.value).Some? && v > ToNumber(refHigh.value).value then true
        else false
  }

  /** A value equal to a bound is in range, and a bound that is missing or
      not a number constrains nothing. */
  lemma BoundsInclusive(v: real, refLow: Option<Scalar>, refHigh: Option<Scalar>)
    requires Bound(refLow).None? || Bound(refLow).value <= v
    requires Bound(refHigh).None? || v <= Bound(refHigh).value
    ensures !CheckOutOfRange(Some(NumV(v)), refLow, refHigh)
  {
  }

  /** With no usable bound nothing is ever out of range. */
  lemma NoBoundsNeverOut(value: Option<Scalar>, refLow: Option<Scalar>, refHigh: Option<Scalar>)
    requires Bound(refLow).None? && Bound(refHigh).None?
    ensures !CheckOutOfRange(value, refLow, refHigh)
  {
  }

  /** A numeric string and the number it spells are checked alike. */
  lemma StringValueAsNumber(s: string, refLow: Option<Scalar>, refHigh: Option<Scalar>)
    requires Numbers.NumberOf(s).Some?
    ensures CheckOutOfRange(Some(StrV(s)), refLow, refHigh)
         == CheckOutOfRange(Some(NumV(Numbers.NumberOf(s).value)), refLow, refHigh)
  {
  }
}
