/** The Option and Result datatypes shared by the model. */
module Wrappers {

  datatype Option<+T> = None | Some(value: T)

  /** A value or the error that the script would have thrown instead. */
  datatype Result<+R, +E> = Success(value: R) | Failure(error: E)
}
