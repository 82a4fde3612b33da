/** Optional values (Java's `Optional` and nullable references) and results
    (a value or the exception the Java code would throw). */
module Wrappers {

  datatype Option<+T> = None | Some(value: T)

  datatype Result<+T, +E> = Success(value: T) | Failure(error: E)
}
