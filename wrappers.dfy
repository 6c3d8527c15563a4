/** Option and Result, as used by the thread-dump model for Java's
    `Optional` and for the exceptions `parse` can throw. */
module Wrappers {

  datatype Option<+T> = None | Some(value: T)

  datatype Result<+R, +E> = Success(value: R) | Failure(error: E)
}
