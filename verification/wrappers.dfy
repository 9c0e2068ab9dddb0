/** Option and Result, used in place of the source's convention of returning a
    human-readable error message where a value was expected. */
module Wrappers {

  datatype Option<+T> = None | Some(value: T)

  datatype Result<+T, +E> = Success(value: T) | Failure(error: E)
}
