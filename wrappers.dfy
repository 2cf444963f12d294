/** Optional values and results with an error case, shared by the modules
    of the model. */
module Wrappers {

  /** A value that may be absent (Python's `None`). */
  datatype Option<+T> = None | Some(value: T)

  /** A value or the error that a Python `raise` would have produced instead. */
  datatype Result<+T, +E> = Ok(value: T) | Err(error: E)
}
