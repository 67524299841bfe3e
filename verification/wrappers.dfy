/** Optional values and results with an error side, standing in for Python's `None`
    and for exceptions that an operation raises instead of returning. */
module Wrappers {

  datatype Option<+T> = None | Some(value: T)

  datatype Result<+T, +E> = Success(value: T) | Failure(error: E)
}
