/** Option and Result, the two failure-carrying datatypes the model uses. */
module Wrappers {

  /** `None` stands for JavaScript's undefined or null, `Some` for a present value. */
  datatype Option<+T> = None | Some(value: T)

  /** The outcome of an operation that may be refused with an error value. */
  datatype Result<+T, +E> = Ok(value: T) | Err(error: E)
}
