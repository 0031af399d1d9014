/** Option and Result values shared by the output checker and the evaluation runner. */
module Wrappers {

  /** A value that may be absent. */
  datatype Option<+T> = None | Some(value: T)

  /** The outcome of an operation that either produces a value or raises an error. */
  datatype Result<+T> = Ok(value: T) | Err(error: string)
}
