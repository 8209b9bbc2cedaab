/** Results that may be missing or in error. */
module Wrappers {

  datatype Option<T> = None | Some(value: T)

  /** A value, or the error number the C code returns negated. */
  datatype Result<T> = Ok(value: T) | Err(error: nat)
}
