/** Optional values and results with an error, used for Python's None and for raised exceptions. */
module Wrappers {

  /** `None` stands for Python's None, `Some(v)` for a present value. */
  datatype Option<+T> = None | Some(value: T)

  /** `Err(e)` stands for an exception that ends the computation. */
  datatype Result<+T, +E> = Ok(value: T) | Err(error: E)
}
