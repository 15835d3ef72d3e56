/** Option and Result, the two failure-carrying datatypes the model uses. */
module Wrappers {

  datatype Option<+T> = None | Some(value: T)

  /** The outcome of a step that either succeeds with a value or stops the whole build. */
  datatype Result<+T, +E> = Ok(value: T) | Err(error: E)
}
