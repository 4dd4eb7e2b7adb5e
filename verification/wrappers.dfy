/** Optional values and results that carry either a value or an error. */
module Wrappers {

  /** A value that may be absent: a nullable column or relationship. */
  datatype Option<+T> = None | Some(value: T)

  /** The outcome of an operation that may raise one of the service's errors. */
  datatype Result<+T, +E> = Ok(value: T) | Err(error: E)
}
