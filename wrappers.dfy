/** Option and Result, used for the source's nil pointers and error returns. */
module Wrappers {

  datatype Option<+T> = None | Some(value: T)

  /** `Err` carries the text of the Go `error` the source returns. */
  datatype Result<+T> = Ok(value: T) | Err(msg: string)
}
