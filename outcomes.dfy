/** Exceptions raised by the modelled Python code, as values. */
module Outcomes {

  /** The Python exception classes the core raises. */
  datatype Error = ValueError | IndexError

  /** An optional argument (Python `None` or a value). */
  datatype Option<+T> = None | Some(value: T)

  /** The result of an operation that either returns a value or raises. */
  datatype Result<+T> = Success(value: T) | Failure(error: Error)

  /** The result of an operation that returns nothing or raises. */
  datatype Outcome = Pass | Fail(error: Error)
}
