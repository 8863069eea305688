/** Option and Result values used for the Python code's `None` and its exceptions. */
module Wrappers {

  datatype Option<+T> = None | Some(value: T)

  /** `Err` stands for an exception that aborts the caller. */
  datatype Result<+T, +E> = Ok(value: T) | Err(error: E)
}
