/** Failure-carrying result types shared by the modules of the model. */
module Wrappers {

  datatype Option<+T> = None | Some(value: T)

  /** `Err` stands for a Python exception escaping the call. */
  datatype Result<+T, +E> = Ok(value: T) | Err(error: E)

  /** A call that returns nothing but may raise. */
  datatype Outcome<+E> = Pass | Fail(error: E)
}
