/** Option and Result: absent JavaScript values and operations that throw. */
module Wrappers {

  /** `undefined` / `null` versus a present value. */
  datatype Option<+T> = None | Some(value: T) {
    /** `x ?? default` for a present-or-absent value */
    function GetOr(default: T): T {
      match this
      case Some(v) => v
      case None => default
    }
  }

  /** The value of an expression, or the error it throws. */
  datatype Result<+T, +E> = Success(value: T) | Failure(error: E)
}
