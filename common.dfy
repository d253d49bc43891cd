/** Values shared by every part of the model: optional values, the errors the
    library raises, and results that carry either a value or one of those errors. */
module Common {

  /** Ruby's `nil` or a present value. */
  datatype Option<T> = None | Some(value: T) {
    /** `x || default` in Ruby, for an optional `x`. */
    function GetOr(default: T): T {
      if Some? then value else default
    }

    /** `x || y` in Ruby, for two optional values. */
    function Or(other: Option<T>): Option<T> {
      if Some? then this else other
    }
  }

  /** The exceptions the core raises. */
  datatype Error =
    | UnitError                                          // Measured::UnitError
    | ZeroDivision                                       // ZeroDivisionError from `1 / Rational(0)`
    | CycleDetected(edge: nat)                           // Measured::CycleDetected, carrying the index of the offending unit
    | MissingConversionPath(from: string, to: string)    // Measured::MissingConversionPath

  /** A value, or the exception raised instead of returning it. */
  datatype Result<T> = Ok(value: T) | Err(error: Error)

  predicate Distinct<T(==)>(s: seq<T>) {
    forall i, j | 0 <= i < j < |s| :: s[i] != s[j]
  }
}
