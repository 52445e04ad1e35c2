/** Failure outcomes of the modelled collections: each exception the C# code
    throws or each cancelled task it returns becomes one error code. */
module Errors {

  datatype Error =
    | KeyNotFound       // KeyNotFoundException from a dictionary indexer
    | DuplicateKey      // ArgumentException from Dictionary.Add or ToDictionary
    | OperationCanceled // a task completed in the cancelled state
    | IndexOutOfRange   // IndexOutOfRangeException thrown by First
    | ArgumentOutOfRange // ArgumentOutOfRangeException: a negative index
    | ArgumentInvalid   // ArgumentException: a destination array too short

  /** A value, or the error that took its place. */
  datatype Outcome<+T> = Ok(value: T) | Err(error: Error)
}
