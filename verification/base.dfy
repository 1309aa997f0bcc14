/** Absent values and failures shared by the interval and series modules.
    The library signals errors with exceptions; here they become `Failure` values. */
module Base {

  /** A possibly absent value; `None` stands for Java's `null`. */
  datatype Option<+T> = None | Some(value: T)

  /** The exceptions the core can raise. */
  datatype Error =
    | NullArgument     // ArgumentNullException: a required argument was null
    | IllegalOverlap   // IllegalOvelapException: a new key overlaps a stored one
    | NullDereference  // NullPointerException: a method was called on an infinite (null) edge

  /** Either the value an operation returns or the exception it raises. */
  datatype Result<+T> = Success(value: T) | Failure(error: Error)
}
