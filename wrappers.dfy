/** Optional values and error-carrying results shared by the other modules. */
module Wrappers {

  datatype Option<+T> = None | Some(value: T)

  /** A computation that either yields a value or raises an error, in the
      place of a Java method that returns or throws. */
  datatype Result<+T, +E> = Ok(value: T) | Err(error: E)
}
