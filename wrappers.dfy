/** Failure-carrying values used wherever the game throws or returns null. */
module Wrappers {

  /** Stands in for a Java reference that may be null. */
  datatype Option<+T> = None | Some(value: T)

  /** The Java exception classes the core throws. */
  datatype Error =
    | IllegalArgument   // java.lang.IllegalArgumentException
    | IllegalState      // java.lang.IllegalStateException
    | Runtime           // a bare java.lang.RuntimeException
    | ClassCast         // a failed downcast
    | NullReference     // a method called on a null field

  /** A value, or the exception that was thrown instead of producing it. */
  datatype Result<+T> = Ok(value: T) | Err(error: Error)
}
