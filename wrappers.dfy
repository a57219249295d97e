/** Option and Result, shared by the extraction and the rendering modules. */
module Wrappers {

  /** A value that may be missing. Python's `None` is `None` here. */
  datatype Option<+T> = None | Some(value: T)

  /** The outcome of an operation whose Python counterpart may raise. */
  datatype Result<+T, +E> = Success(value: T) | Failure(error: E)
}
