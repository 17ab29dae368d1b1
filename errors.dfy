/** The exceptions the log generator can raise, and a result type that carries them. */
module Errors {

  /** The Python exceptions that the generator raises on its inputs. */
  datatype Error =
    | EmptySequence   // IndexError from random.choice on an empty list
    | UnpackMismatch  // ValueError from unpacking a date range that does not hold exactly two dates

  datatype Result<+T> = Ok(value: T) | Err(error: Error)

  datatype Option<+T> = None | Some(value: T)
}
