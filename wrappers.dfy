/** Option, Result and Outcome: Python's None returns, exceptions and bailouts as values. */
module Wrappers {
  datatype Option<T> = None | Some(value: T)

  datatype Result<T, E> = Success(value: T) | Failure(error: E)

  datatype Outcome<E> = Pass | Fail(error: E)
}
