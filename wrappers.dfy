/** Option and Result, used wherever the Python code yields `None` or raises. */
module Wrappers {

  datatype Option<+T> = None | Some(value: T)

  /** `Failure` stands for an exception that propagates out of the script. */
  datatype Result<+T, +E> = Success(value: T) | Failure(error: E)
}
