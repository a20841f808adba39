/** Option and Result values used in place of Python's None and raised exceptions. */
module Wrappers {

  datatype Option<+T> = None | Some(value: T)

  /** Ok carries a value; Err carries the error that the source would raise. */
  datatype Result<+T, +E> = Ok(value: T) | Err(error: E)
}
