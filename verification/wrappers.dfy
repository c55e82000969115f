/** Failure-carrying values used in place of the C++ exceptions of the model. */
module Wrappers {

  /** An optional value: a position that may not exist. */
  datatype Option<+T> = None | Some(value: T)

  /** A computed value, or the error the source would throw instead. */
  datatype Result<+R, +E> = Success(value: R) | Failure(error: E)

  /** The result of an operation that returns nothing but may throw. */
  datatype Outcome<+E> = Pass | Fail(error: E)
}
