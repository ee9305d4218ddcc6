/** Option and Result: the "no match" marker and the raised-or-returned outcome of a call. */
module Wrappers {

  datatype Option<+T> = None | Some(value: T)

  datatype Result<+R, +E> = Ok(value: R) | Err(error: E)
}
