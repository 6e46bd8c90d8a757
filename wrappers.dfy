/** Optional values and success/failure results shared by the other modules. */
module Wrappers {

  /** A value that may be absent (an `undefined` property, a `NaN` number, a `null` document). */
  datatype Option<+T> = None | Some(value: T)

  /** The outcome of an operation that may throw: the value, or the thrown error's message. */
  datatype Result<+T> = Success(value: T) | Failure(error: string)
}
