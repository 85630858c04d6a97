/** Success-or-error values, for the `Result` returns of the decoder. */
module Wrappers {

  datatype Result<+T, +E> = Ok(value: T) | Err(error: E)
}
