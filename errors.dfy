/** Results of operations that can raise an error.
    The library signals failures by throwing `std::runtime_error` (directly or
    through its THROWERROR macros) or `std::out_of_range` (from `.at()`); the
    model returns the failure as a value carrying the error message instead. */
module Errors {

  datatype Option<+T> = None | Some(value: T)

  /** The outcome of an operation that returns a value or throws. */
  datatype Result<+T> = Ok(value: T) | Err(msg: string)

  /** The outcome of an operation that returns nothing or throws. */
  datatype Outcome = Pass | Fail(msg: string)

  /** Message of `std::vector::at` and friends when the index is out of range. */
  const OutOfRange: string := "out_of_range"
}
