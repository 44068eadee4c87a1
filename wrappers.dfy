/** Failure-compatible wrappers shared by the whole model. */
module Wrappers {
  /** A value that may be absent: a null pointer, Python's None, a failed read. */
  datatype Option<T> = None | Some(value: T)

  /** The outcome of an operation that can raise an error. */
  datatype Result<T, E> = Ok(value: T) | Err(error: E)
}
