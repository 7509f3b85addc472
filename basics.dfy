/** Optional values and results shared by every module of the model. */
module Basics {

  /** A value that may be absent: JavaScript's `null`/`undefined`, or a hole of a sparse array. */
  datatype Option<T> = None | Some(value: T)

  /** The value of an operation, or the exception it throws. */
  datatype Result<T, E> = Ok(value: T) | Err(error: E)
}
