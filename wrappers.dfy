/** Optional values (a Java reference that may be null, an `Optional<T>`) and results (a value or the
    exception that was thrown instead). */
module Wrappers {

  datatype Option<+T> = None | Some(value: T)

  datatype Result<+T, +E> = Success(value: T) | Failure(error: E)
}
