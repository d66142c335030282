/** Option and Result, for the JavaScript values `undefined` and thrown errors. */
module Wrappers {

  datatype Option<+T> = None | Some(value: T)

  datatype Result<+R, +E> = Ok(value: R) | Err(error: E)
}
