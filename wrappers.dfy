/** The Option and Result datatypes shared by the other modules. */
module Wrappers {

  /** An optional value, used where the source has `null`/`undefined`. */
  datatype Option<+T> = None | Some(value: T)

  /** A value or the error the source would have thrown instead. */
  datatype Result<+T, +E> = Success(value: T) | Failure(error: E)
}
