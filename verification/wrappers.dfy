/** The two failures the containers report, and the shapes that carry them. */
module Wrappers {

  /** `InvalidArgument` stands for `std::invalid_argument`, `Underflow` for `std::underflow_error`. */
  datatype Error = InvalidArgument | Underflow

  /** The result of an operation that yields a value or fails. */
  datatype Result<+R> = Success(value: R) | Failure(error: Error)

  /** The result of an operation that yields nothing or fails. */
  datatype Outcome = Pass | Fail(error: Error)
}
