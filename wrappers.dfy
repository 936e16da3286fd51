/** Failure-carrying values shared by every module of the model. */
module Wrappers {

  /** A value that may be absent: JavaScript's null/undefined result, Java's Optional. */
  datatype Option<+T> = None | Some(value: T) {
    function GetOr(default: T): T {
      match this
      case Some(v) => v
      case None => default
    }
  }

  /** A value or the error that was thrown instead of producing it. */
  datatype Result<+R, +E> = Success(value: R) | Failure(error: E)

  /** The completion of an operation that returns nothing: it passes or throws `error`. */
  datatype Outcome<+E> = Pass | Fail(error: E)
}
