/** Optional values and success/failure results, standing in for Java's nullable references,
    Optional<T> and the exceptions the service throws for rejected input. */
module Wrappers {
  datatype Option<+T> = None | Some(value: T)

  datatype Result<+T, +E> = Ok(value: T) | Err(error: E)
}
