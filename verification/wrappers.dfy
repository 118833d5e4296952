/** Optional values and typed outcomes, standing in for Java's `null` and
    exceptions. */
module Wrappers {

  /** A value that may be absent. */
  datatype Option<+T> = None | Some(value: T)

  /** Either a result or the reason there is none. */
  datatype Result<+T, +E> = Ok(value: T) | Err(error: E)
}
