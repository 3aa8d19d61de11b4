/** Failure-compatible wrappers used across the model: an optional value and
    a result that is either a value or an error message. */
module Wrappers {

  datatype Option<+T> = None | Some(value: T)

  /** The outcome of an operation that raises an error in arithgen:
      `Err` carries the error's message. */
  datatype Result<+T> = Ok(value: T) | Err(message: string)
}
