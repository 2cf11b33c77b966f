/** Optional values and results shared by every module of the model. */
module Wrappers {

  /** A value that may be absent, like `std::optional` or a Python `None`. */
  datatype Option<+T> = None | Some(value: T)

  /** Either a value or the error kind an operation raised instead. */
  datatype Result<+T, +E> = Ok(value: T) | Err(error: E)
}
