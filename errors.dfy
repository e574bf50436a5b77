/** The ways an operation of the buffer family can end. */
module Errors {

  /** The exception kinds the buffers throw. */
  datatype Error =
    | IndexOutOfBounds   // IndexOutOfBoundsException, and its subclass ArrayIndexOutOfBoundsException
    | IllegalArgument    // IllegalArgumentException
    | Runtime            // RuntimeException (an address that cannot be resolved)

  /** An operation that returns `this` in Java: it completes, or throws. */
  datatype Outcome = Pass | Fail(error: Error)

  /** An operation that returns a value, or throws. */
  datatype Result<T> = Ok(value: T) | Err(error: Error)
}
