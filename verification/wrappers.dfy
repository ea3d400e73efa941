/** Failure-carrying values used throughout the model: an optional value and
    a result that is either a value or an error. The Go source returns
    `(value, error)` pairs; these datatypes are their functional counterpart. */
module Wrappers {

  datatype Option<+T> = None | Some(value: T) {

    /** The value, or `default` when there is none. */
    function GetOr(default: T): T {
      match this
      case Some(v) => v
      case None => default
    }
  }

  datatype Result<+R, +E> = Success(value: R) | Failure(error: E) {

    predicate IsFailure() {
      Failure?
    }

    function PropagateFailure<U>(): Result<U, E>
      requires Failure?
    {
      Failure(error)
    }

    function Extract(): R
      requires Success?
    {
      value
    }
  }

  /** A result that carries no value: `Pass`, or `Fail` with an error. */
  datatype Outcome<+E> = Pass | Fail(error: E)
}
