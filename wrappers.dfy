/** Option and Result, the failure-carrying values the converters return. */
module Wrappers {

  datatype Option<+T> = None | Some(value: T)

  /** `Err` stands for a Python exception that aborts the whole conversion. */
  datatype Result<+T, +E> = Ok(value: T) | Err(error: E)
}
