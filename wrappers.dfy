/** Option and Result values used for Python's `None` and for exceptions that a caller may catch. */
module Wrappers {

  datatype Option<+T> = None | Some(value: T)

  /** `Err` stands for a Python exception, carrying the text `str(e)` would give. */
  datatype Result<+T, +E> = Ok(value: T) | Err(error: E)
}
