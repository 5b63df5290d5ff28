/** Option and Result, the shapes of "maybe absent" values and of handlers that fail with an error. */
module Wrappers {

  datatype Option<+T> = None | Some(value: T)

  datatype Result<+R, +E> = Success(value: R) | Failure(error: E)
}
