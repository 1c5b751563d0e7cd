/** Option and Result, the two failure-carrying shapes used across the model. */
module Wrappers {

  datatype Option<+T> = None | Some(value: T)

  /** The settled outcome of an asynchronous call: a value, or the message of the error it threw. */
  datatype Result<+R> = Ok(value: R) | Err(message: string)
}
