/** Optional values, the exceptions the modelled programs raise, and results
    that carry either a value or one of those exceptions. */
module Wrappers {

  /** A value that may be absent: Java's null / Optional, C++'s std::optional. */
  datatype Option<+T> = None | Some(value: T)

  /** The exception kinds raised by the modelled Java and C++ code. */
  datatype Error =
    | IllegalArgument        // java.lang.IllegalArgumentException
    | NegativeArraySize      // java.lang.NegativeArraySizeException
    | NoSuchElement          // java.util.NoSuchElementException
    | UnsupportedOperation   // java.lang.UnsupportedOperationException
    | OutOfRange             // std::out_of_range
    | RuntimeError           // std::runtime_error

  /** Either the value an operation returns or the exception it throws. */
  datatype Result<+T> = Ok(value: T) | Err(error: Error)
}
