/** Failure-carrying wrappers shared by the models of `byte.py` and `main.py`. */
module Outcomes {

  /** An optional value: `None` stands for Python's `None` argument. */
  datatype Option<+T> = None | Some(value: T)

  /** The outcome of an operation that Python would end with an exception. */
  datatype Result<+T, +E> = Ok(value: T) | Err(error: E)
}
