/** The two result shapes used throughout: a value that may be absent, and a
    value or the reason there is none. */
module Wrappers {

  datatype Option<+T> = None | Some(value: T)

  datatype Result<+T, +E> = Success(value: T) | Failure(error: E)
}
