/** Failure-carrying values used where the Go code returns an error or a missing value. */
module Wrappers {

  /** A value that may be absent, e.g. a file that could not be read. */
  datatype Option<+T> = None | Some(value: T) {
    /** The value, or `default` when absent. */
    function GetOr(default: T): T {
      match this
      case Some(v) => v
      case None => default
    }
  }

  /** The outcome of an operation that returns a Go `error`. */
  datatype Result<+R, +E> = Success(value: R) | Failure(error: E)
}
