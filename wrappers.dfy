/** Failure-carrying results used by the table operations that can throw. */
module Wrappers {

  datatype Option<+T> = None | Some(value: T)

  datatype Result<+T, +E> = Ok(value: T) | Err(error: E)

  /** Success or failure of an operation that returns nothing on success. */
  datatype Outcome<+E> = Pass | Fail(error: E)
}
