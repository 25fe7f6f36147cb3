/** Option and Result, the two failure-carrying datatypes the model uses. */
module Wrappers {

  /** A value that may be absent: JavaScript's `undefined` is None. */
  datatype Option<+T> = None | Some(value: T)

  /** The outcome of a call that can throw: Err carries the thrown error's message. */
  datatype Result<+T> = Ok(value: T) | Err(message: string)
}
