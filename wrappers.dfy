/** Optional values and results with an error, standing for JavaScript's
    `null`-or-value returns and for thrown exceptions. */
module Wrappers {

  datatype Option<+T> = None | Some(value: T)

  datatype Result<+T, +E> = Success(value: T) | Failure(error: E)
}
