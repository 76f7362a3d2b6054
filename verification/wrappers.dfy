/** Failure-carrying wrappers shared by the whole model. */
module Wrappers {

  /** An optional value: SQL NULL, a missing row, Python's None. */
  datatype Option<+T> = None | Some(value: T)

  /** The outcome of an operation that can raise: the value, or the error raised. */
  datatype Result<+T, +E> = Ok(value: T) | Err(error: E)
}
