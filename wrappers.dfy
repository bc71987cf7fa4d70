/** Option and Result, standing for Python's None and for a call that either
    returns a value or raises an exception (whose str() is the error). */
module Wrappers {

  datatype Option<+T> = None | Some(value: T)

  datatype Result<+R, +E> = Success(value: R) | Failure(error: E)

}
