/** Optional and failure-carrying results, for `std::optional` and the exception of `operator[]`. */
module Wrappers {

  datatype Option<+T> = None | Some(value: T)

  datatype Result<+T, +E> = Success(value: T) | Failure(error: E)
}
