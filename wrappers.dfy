/** Optional values and success/failure results, standing in for C#'s nullable
    values and thrown exceptions, and for JavaScript's null/undefined. */
module Wrappers {

  datatype Option<+T> = None | Some(value: T)

  datatype Result<+T, +E> = Success(value: T) | Failure(error: E)
}
