/** Failure-carrying results for operations whose Python original raises. */
module Wrappers {

  datatype Option<+T> = None | Some(value: T)

  /** The Python exceptions the core can raise on bad parameters. */
  datatype PyError =
    | NegativeDimensions   // numpy refuses an array shape with a negative extent (ValueError)
    | DivisionByZero       // a float division by zero (ZeroDivisionError)
    | IndexOutOfRange      // a numpy index outside [-n, n) on some axis (IndexError)

  datatype Result<+T> = Success(value: T) | Failure(error: PyError)
}
