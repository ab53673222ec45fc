/** Optional values and results with an error, used wherever the Java and
    Kotlin code returns null or throws. */
module Wrappers {
  datatype Option<T> = None | Some(value: T)

  datatype Result<T, E> = Success(value: T) | Failure(error: E)
}
