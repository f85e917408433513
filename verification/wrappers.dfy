/** Option and Result values, standing in for Go's `(value, error)` returns. */
module Wrappers {

  /** A value that may be absent, such as the contents of a file that could not be read. */
  datatype Option<+T> = None | Some(value: T)

  /** Either a successful value or an error value. */
  datatype Result<+R, +E> = Success(value: R) | Failure(error: E)
}
