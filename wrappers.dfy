/** Option and Result. */
module Wrappers {

  datatype Option<+T> = None | Some(value: T)

  /** Success carries a value, Failure the error the source would raise. */
  datatype Result<+T, +E> = Success(value: T) | Failure(error: E)
}
