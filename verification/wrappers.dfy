/** Option and Result, the two failure-carrying datatypes the rest of the model uses
    in place of Python's None values and raised exceptions. */
module Wrappers {

  /** A value that may be absent: a missing dictionary key, a library that could not parse. */
  datatype Option<+T> = None | Some(value: T) {

    /** The carried value, or `default` when there is none (Python's `dict.get(k, default)`). */
    function GetOr(default: T): T {
      match this
      case Some(v) => v
      case None => default
    }
  }

  /** The outcome of an operation that either succeeds with a value or fails with an error. */
  datatype Result<+R, +E> = Success(value: R) | Failure(error: E)
}
