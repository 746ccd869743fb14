/** Failure-carrying return values: the model's stand-in for a thrown Error. */
module Wrappers {

  datatype Option<+T> = None | Some(value: T)

  /** Either the value an operation returns, or the error it throws. */
  datatype Result<+T, +E> = Ok(value: T) | Err(error: E)
}
