/** The outcomes of the client's operations: a value or the failure the Java code throws. */
module Results {

  /** A value that may be absent; the Java code uses null for the absent case. */
  datatype Option<+T> = None | Some(value: T)

  /** The exceptions that leave ClamdClient's operations. */
  datatype Error =
    | WriteTimeout                                    // IOException "Timeout while writing"
    | ReadTimeout                                     // IOException "Timeout while reading"
    | UnexpectedReply(expected: string, got: string)  // IOException "Expected <expected>, but got: <got>"
    | IndexOutOfBounds                                // splittedString[0] on an empty array

  /** The result of an operation that returns a value. */
  datatype Result<+T> = Success(value: T) | Failure(error: Error)

  /** The result of an operation that returns nothing. */
  datatype Outcome = Pass | Fail(error: Error)
}
