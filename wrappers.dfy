/** Failure-carrying values. The C# source signals a missing entry with
    `null` and a misuse with a thrown `InvalidOperationException`; the model
    returns these datatypes instead. */
module Wrappers {

  datatype Option<+T> = None | Some(value: T)

  datatype Result<+T, +E> = Ok(value: T) | Err(error: E)

  /** The result of an operation that returns nothing when it succeeds. */
  datatype Outcome<+E> = Pass | Fail(error: E)
}
