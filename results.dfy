/** Error values and the result types that replace thrown exceptions. */
module Results {

  datatype Option<+T> = None | Some(value: T)

  /** An HTTP error as the framework's error helpers build it: a status code and a message. */
  datatype HttpError = HttpError(statusCode: nat, message: string)

  /** A call that either returns a value or throws an `HttpError`. */
  datatype Result<+T> = Ok(value: T) | Err(error: HttpError)

  /** A call that returns nothing or throws an `HttpError`. */
  datatype Outcome = Pass | Fail(error: HttpError)
}
