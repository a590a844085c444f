/// The outcome of an operation that may throw.  Every failure of the
/// container is a `std::out_of_range`, so there is a single exception kind.
module Exceptions {

  datatype Exception = OutOfRange

  /** Either the value an operation returns or the exception it throws. */
  datatype Result<+R> = Ok(value: R) | Throw(error: Exception)
}
