/** Option and Result, the shapes used for Python's `None` and for raised exceptions. */
module Wrappers {

  datatype Option<+T> = None | Some(value: T)

  /** `Ok` is a normal return; `Err` is an exception, which carries no partial result. */
  datatype Result<+T, +E> = Ok(value: T) | Err(error: E)
}
