/** Shared result types. The Java code signals failure with unchecked
    exceptions; the model returns them as values instead. */
module Base {

  /** A value that may be missing: Java's `null` return. */
  datatype Option<+T> = None | Some(value: T)

  /** The exception classes the modelled code can throw. */
  datatype Failure =
    | IllegalArgument   // IllegalArgumentException
    | IndexOutOfBounds  // IndexOutOfBoundsException, or a library index check
    | NullPointer       // NullPointerException from unboxing a missing map entry

  /** Either the returned value or the exception that was thrown. */
  datatype Result<+T> = Ok(value: T) | Err(failure: Failure)
}
