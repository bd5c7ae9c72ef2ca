/** Failure-carrying results used for the calls that PHP ends with a warning or a TypeError. */
module Wrappers {

  datatype Option<+T> = None | Some(value: T)

  datatype Result<+T, +E> = Ok(value: T) | Err(error: E)
}
