/** Optional values and error returns, standing for C# nullable results and thrown exceptions. */
module Wrappers {

  /** A value that may be absent (a C# `null`). */
  datatype Option<+T> = None | Some(value: T)

  /** A value, or the exception that an operation throws instead of returning one. */
  datatype Result<+T, +E> = Ok(value: T) | Err(error: E)
}
