/** Option stands for Python's `None`-or-value; Result for a call that either
    returns or raises. */
module Wrappers {
  datatype Option<+T> = None | Some(value: T)

  datatype Result<+T, +E> = Ok(value: T) | Err(error: E)
}
