/** Option and Result, the shapes of Go's (value, err) returns. */
module Wrappers {

  datatype Option<+T> = None | Some(value: T)

  /** Ok(v) is a nil error with value v; Err(msg) is a non-nil error whose Error() is msg. */
  datatype Result<+T> = Ok(value: T) | Err(error: string)
}
