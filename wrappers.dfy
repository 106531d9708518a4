/** Failure-compatible results shared by the factorial and the array operations. */
module Wrappers {

  /** An optional value; a `None` slot stands for a Java array slot still holding null. */
  datatype Option<T> = None | Some(value: T)

  /** The two exceptions the operations raise. */
  datatype Exception = IllegalArgument | NullPointer

  /** Either a returned value or a raised exception. */
  datatype Result<T> = Ok(value: T) | Err(error: Exception)
}
