/** Option and Result, the two failure-carrying values the model uses for
    Python's None and for an exception raised part-way through a computation. */
module Wrappers {

  datatype Option<+T> = None | Some(value: T)

  datatype Result<+T, +E> = Success(value: T) | Failure(error: E)
}
