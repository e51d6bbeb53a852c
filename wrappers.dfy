/** Option and Result: the model's stand-ins for Python's None and for raised exceptions. */
module Wrappers {

  datatype Option<+T> = None | Some(value: T)

  /** `Err` stands for an exception the source raises; `Ok` for a normal return. */
  datatype Result<+T, +E> = Ok(value: T) | Err(error: E)

  /** A normal return that carries no value, or a raised exception. */
  datatype Outcome<+E> = Pass | Fail(error: E)
}
