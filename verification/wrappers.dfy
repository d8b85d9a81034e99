/** Option and Result: the "absent" and "failed" outcomes of the store and of HTTP calls. */
module Wrappers {

  datatype Option<+T> = None | Some(value: T)

  /** A computation that either produced a value or raised an error carrying a message. */
  datatype Result<+R, +E> = Success(value: R) | Failure(error: E)
}
