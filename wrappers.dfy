/** Option and Result datatypes shared by the other modules. */
module Wrappers {

  /** A value that may be absent: C#'s `null` string and `Nullable<T>`. */
  datatype Option<+T> = None | Some(value: T)

  /** The value of an operation, or the exception it throws. */
  datatype Result<+R, +E> = Success(value: R) | Failure(error: E)
}
