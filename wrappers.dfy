/** Optional values and error-carrying results shared by the other modules. */
module Wrappers {

  /** A value that may be absent; `None` plays the part of Python's `None`. */
  datatype Option<+T> = None | Some(value: T)

  /** The outcome of an operation that raises an exception in the source. */
  datatype Result<+T, +E> = Ok(value: T) | Err(error: E)
}
