/** Option and Result, used for the nullable reads and the HTTP error paths of the routes. */
module Wrappers {
  datatype Option<+T> = None | Some(value: T)

  datatype Result<+T, +E> = Ok(value: T) | Err(error: E)
}
