/** Option, Result and Outcome: stand-ins for Java's null and for thrown exceptions. */
module Wrappers {

  /** `None` plays the role of a Java `null` reference. */
  datatype Option<+T> = None | Some(value: T)

  /** A computation that either yields a value or throws. */
  datatype Result<+R, +E> = Success(value: R) | Failure(error: E)

  /** A `void` Java call that either returns normally or throws. */
  datatype Outcome<+E> = Pass | Fail(error: E)
}

/** The exceptions the modelled Java code can throw. */
module Errors {

  datatype Failure =
    | Overlap            // IllegalArgumentException: the time slot overlaps a scheduled task
    | NullPointer        // NullPointerException: a missing map entry or a null start time was dereferenced
    | IndexOutOfBounds   // ArrayIndexOutOfBoundsException / IndexOutOfBoundsException
    | NumberFormat       // NumberFormatException from Integer.parseInt
    | UnknownStatus      // IllegalArgumentException from TaskStatus.valueOf
    | UnknownType        // IllegalArgumentException("Unknown task type: ...")
    | SubListRange       // IllegalArgumentException from subList(1, 0) on a file without lines
}
