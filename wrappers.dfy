/** Option and Result values used for the optional fields and the failing calls of the gallery. */
module Wrappers {

  datatype Option<+T> = None | Some(value: T)

  /** The outcome of a call that may throw: a value, or the message of the error it threw. */
  datatype Result<+T> = Success(value: T) | Failure(error: string)
}
