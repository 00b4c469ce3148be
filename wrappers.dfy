/** Option and Result values for the storage model: Go's `(value, error)` pairs
    become a Result whose error carries the message text. Bytes are the
    integers 0..255, as Go's `byte`. */
module Wrappers {

  datatype Option<+T> = None | Some(value: T)

  datatype Result<+T> = Ok(value: T) | Err(error: string)

  type byte = x: int | 0 <= x < 256
}
