/** Optional values and typed failures shared by the catalog modules. */
module Wrappers {

  /** A value that may be absent: a nullable field or a failed lookup. */
  datatype Option<+T> = None | Some(value: T)

  /** The outcome of an operation that may fail with error `E`. */
  datatype Result<+T, +E> = Ok(value: T) | Err(error: E)
}
