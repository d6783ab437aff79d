/** Failure-carrying values shared by the other modules. */
module Wrappers {

  /** A JavaScript value that may be `undefined` (or `null`). */
  datatype Option<+T> = None | Some(value: T)

  /** The outcome of an operation that can fail with an error message. */
  datatype Result<+T, +E> = Ok(value: T) | Err(error: E)
}
