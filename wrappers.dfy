/** Option and Result: a Python attribute that may not exist yet, and an
    operation that either yields a value or raises an exception. */
module Wrappers {

  datatype Option<+T> = None | Some(value: T)

  datatype Result<+T, +E> = Success(value: T) | Failure(error: E)
}
