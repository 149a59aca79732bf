/** Optional values and results with an error, the shapes the model uses for
    JavaScript's `null`/`undefined` and for calls that would throw. */
module Wrappers {

  datatype Option<+T> = None | Some(value: T)

  datatype Result<+T, +E> = Success(value: T) | Failure(error: E)
}
