/** Failure outcomes of the container operations.

    Each constructor of `Error` stands for the C++ exception class that the
    library throws at that point; the operation returns `Err` instead of
    throwing. */
module Errors {

  /** `std::out_of_range`, `std::invalid_argument` and `std::logic_error`. */
  datatype Error = OutOfRange | InvalidArgument | LogicError

  /** The value of an operation that either succeeds or throws one of the above. */
  datatype Result<T> = Ok(value: T) | Err(error: Error)
}
