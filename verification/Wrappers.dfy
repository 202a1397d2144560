/**
 * Values that may be missing, and results that may be errors.
 */
module Wrappers {

  /** An 8-bit unsigned value. */
  type Byte = b: nat | b < 256

  datatype Option<+T> = None | Some(value: T)

  /** A value, or the panic or fatal error that ends the program. */
  datatype Result<+T> = Ok(value: T) | Abort
}
