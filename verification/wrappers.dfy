/** Failure-compatible wrappers used to model `std::optional` results and thrown exceptions. */
module Wrappers {

  /** The model of `std::optional`: either nothing or a value. */
  datatype Option<+T> = None | Some(value: T) {

    /** Returns the value in Some, or `default` when there is none. */
    function GetOr(default: T): T {
      match this
      case Some(v) => v
      case None => default
    }
  }

  /** A result that is either a value or the error a thrown exception would carry. */
  datatype Result<+R, +E> = Success(value: R) | Failure(error: E) {

    predicate IsFailure() {
      Failure?
    }

    function PropagateFailure<U>(): Result<U, E>
      requires Failure?
    {
      Failure(error)
    }

    function Extract(): R
      requires Success?
    {
      value
    }
  }
}
