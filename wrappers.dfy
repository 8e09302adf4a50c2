/** Optional and fallible results used throughout the model. */
module Wrappers {

  /** A value that may be absent (JavaScript `null`/`undefined` at the model's boundary). */
  datatype Option<+T> = None | Some(value: T)

  /** The outcome of a step that can throw: the value, or the message of the exception. */
  datatype Result<+T> = Ok(value: T) | Err(message: string)
}
