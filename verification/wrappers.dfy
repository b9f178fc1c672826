/** Optional values and results with an error message, as used across the model. */
module Wrappers {

  /** A value that may be absent: JavaScript's `undefined` for an optional field or a failed match. */
  datatype Option<+T> = None | Some(value: T)

  /** The outcome of a step that can throw: `Failure` carries the message of the thrown error. */
  datatype Result<+T> = Ok(value: T) | Failure(error: string)
}
