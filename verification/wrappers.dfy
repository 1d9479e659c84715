/** Failure-carrying result types shared by the model.

    The library signals every error with a C++ exception (`std::domain_error`);
    the model returns these values instead of throwing. */
module Wrappers {

  /** A value that may be absent: a null `shared_ptr`, or a conversion stage
      a record does not have. */
  datatype Option<+T> = None | Some(value: T)

  /** Either the value an operation computes or the error it throws. */
  datatype Result<+T, +E> = Success(value: T) | Failure(error: E)

  /** The outcome of a check that computes nothing but may throw. */
  datatype Outcome<+E> = Pass | Fail(error: E)

  /** The only exception class the modelled code throws. */
  datatype Error = DomainError(message: string)
}
