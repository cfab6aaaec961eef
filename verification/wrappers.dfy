/** Optional values, results and pass/fail outcomes used across the model. */
module Wrappers {

  /** A value that may be absent: TypeScript's `T | undefined` / `T | null`. */
  datatype Option<+T> = None | Some(value: T) {
    function GetOr(default: T): T {
      match this
      case Some(v) => v
      case None => default
    }
  }

  /** Either a value or the error an async call rejects with. */
  datatype Result<+R, +E> = Success(value: R) | Failure(error: E)

  /** The outcome of a statement that either returns normally or throws. */
  datatype Outcome<+E> = Pass | Fail(error: E)
}
