/** Option and Result values for the error paths of the modelled Python code. */
module Wrappers {

  datatype Option<+T> = None | Some(value: T)

  /** A Python call either returns a value or raises; `Err` names the exception. */
  datatype Result<+T, +E> = Ok(value: T) | Err(error: E)
}
