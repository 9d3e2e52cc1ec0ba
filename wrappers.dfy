/** Option and Result datatypes shared by every module. */
module Wrappers {

  /** A value that may be absent: JavaScript's `null`/`undefined`, or a parse that gave NaN. */
  datatype Option<+T> = None | Some(value: T) {
    function GetOr(default: T): T {
      match this
      case Some(v) => v
      case None => default
    }
  }

  /** The outcome of an operation that can throw. */
  datatype Result<+T, +E> = Success(value: T) | Failure(error: E)
}
