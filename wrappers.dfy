/**
 * Optional values, the model's stand-in for JavaScript's `undefined`/`null`
 * and the `??` operator, and results, its stand-in for a thrown `Error`.
 */
module Wrappers {

  datatype Option<+T> = None | Some(value: T) {

    /** `x ?? default`: the value when present, the default otherwise. */
    function GetOr(default: T): T {
      match this
      case Some(v) => v
      case None => default
    }
  }

  /** The value a handler returns, or the message of the `Error` it throws. */
  datatype Result<+T> = Success(value: T) | Failure(error: string)
}
