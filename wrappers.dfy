/** Optional values and success-or-error results, standing in for Guava's
    `Optional` and for the checked exceptions of the exchange core. */
module Wrappers {

  datatype Option<+T> = None | Some(value: T)

  datatype Result<+R, +E> = Success(value: R) | Failure(error: E)
}
