/** Failure-carrying return values, standing in for Java's `null` results and thrown exceptions. */
module Wrappers {

  /** `None` plays the part of a Java `null` reference. */
  datatype Option<+T> = None | Some(value: T)

  /** The value an operation returns, or the exception it throws. */
  datatype Result<+R, +E> = Success(value: R) | Failure(error: E)

  /** Completion of a `void` operation: normal return or a thrown exception. */
  datatype Outcome<+E> = Pass | Fail(error: E)

  /** The Java exceptions the modelled code can throw, with the message it passes. */
  datatype JavaException =
    | NoSuchElementException(message: string)
    | DbException(message: string)
    | NullPointerException
    | NumberFormatException(input: string)
}
