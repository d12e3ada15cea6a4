/** Failure-carrying datatypes shared by the other modules. */
module Wrappers {

  /** A value that may be absent: JavaScript's `undefined`/`null` on an optional field. */
  datatype Option<+T> = None | Some(value: T) {

    /** The value, or `default` when absent: JavaScript's `x ?? default`. */
    function GetOr(default: T): T {
      match this
      case Some(v) => v
      case None => default
    }
  }

  /** The outcome of a computation that can throw. */
  datatype Result<+T, +E> = Ok(value: T) | Err(error: E)
}
