/** Option and Result, shared by the catalogue, list and holiday modules. */
module Wrappers {

  /** A value that may be absent; Python's `None` becomes `None` here. */
  datatype Option<+T> = None | Some(value: T)

  /** Either a successful value or an error describing why there is none. */
  datatype Result<+T, +E> = Success(value: T) | Failure(error: E)
}
