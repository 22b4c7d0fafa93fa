/** Failure-carrying values: a missing value, a result or error, and a check outcome. */
module Wrappers {

  datatype Option<+T> = None | Some(value: T) {
    /** The value, or `default` when the cell is empty (pandas `fillna`). */
    function GetOr(default: T): T {
      match this
      case Some(v) => v
      case None => default
    }
  }

  datatype Result<+T, +E> = Success(value: T) | Failure(error: E)

  datatype Outcome<+E> = Pass | Fail(error: E)
}
