/** Optional values and the outcome of an operation that can throw, as used throughout the model. */
module Wrappers {

  /** `undefined` / `null` on one side, a present value on the other. */
  datatype Option<+T> = None | Some(value: T) {

    /** The value, or `default` when there is none. */
    function GetOr(default: T): T {
      match this
      case Some(v) => v
      case None => default
    }
  }

  /** The result of an expression that may raise a JavaScript `TypeError`. */
  datatype Result<+T> = Ok(value: T) | TypeError
}
