/** Option and Result, the shapes of Python's `None`-able returns and of the
    exceptions the service raises. */
module Wrappers {

  datatype Option<+T> = None | Some(value: T)

  datatype Result<+R, +E> = Success(value: R) | Failure(error: E)
}
