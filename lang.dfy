/**
 * The Java notions the collections lean on: a nullable value and the
 * exceptions the modelled methods throw. A method that may throw returns a
 * `Result` (or an `Outcome` when it returns nothing).
 */
module Lang {

  /** A value that may be Java's `null`. */
  datatype Option<+T> = None | Some(value: T)

  /** The exception classes raised by the modelled code. */
  datatype Failure =
    | IndexOutOfBounds       // java.lang.IndexOutOfBoundsException
    | ArrayIndexOutOfBounds  // java.lang.ArrayIndexOutOfBoundsException
    | IllegalArgument        // java.lang.IllegalArgumentException
    | IllegalState           // java.lang.IllegalStateException
    | NoSuchElement          // java.util.NoSuchElementException
    | UnsupportedOperation   // java.lang.UnsupportedOperationException

  /** The value a method returns, or the exception it throws. */
  datatype Result<+T> = Ok(value: T) | Err(failure: Failure)

  /** Normal completion of a `void` method, or the exception it throws. */
  datatype Outcome = Normal | Thrown(failure: Failure)
}
