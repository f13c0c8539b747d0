/** Failure-carrying values shared by the model. */
module Wrappers {

  /** A value that may be absent: a failed lookup, a failed API response. */
  datatype Option<+T> = None | Some(value: T)

  /** The result of an operation that either returns a value or throws an Error with a message. */
  datatype Result<+T> = Ok(value: T) | Err(message: string)
}
