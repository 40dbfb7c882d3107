// Results that may be missing, and results of operations that may fail.
module Wrappers {
  datatype Option<+T> = None | Some(value: T)

  /** A value, or the error EIO. */
  datatype Result<+T> = Ok(value: T) | Eio
}
