/** Option and Result: the absent value (Python's None) and the raised exception. */
module Wrappers {

  datatype Option<+T> = None | Some(value: T)

  /** Failure carries what the Python code would raise. */
  datatype Result<+T, +E> = Success(value: T) | Failure(error: E)
}
