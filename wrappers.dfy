/** Option and Result values used in place of Python's None and raised exceptions. */
module Wrappers {

  datatype Option<+T> = None | Some(value: T)

  /** A computation that either yields a value or raises; `message` is `str(e)`. */
  datatype Result<+T> = Ok(value: T) | Err(message: string)
}
