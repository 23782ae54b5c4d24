/** The absent-or-present value the callbacks of the file-system helpers carry. */
module Wrappers {

  /** `None` is JavaScript's `null` error argument; `Some(v)` a real value. */
  datatype Option<+T> = None | Some(value: T)

  /** Either a value or an error, as a Node callback `(error, value)` delivers it. */
  datatype Result<+T, +E> = Ok(value: T) | Err(error: E)
}
