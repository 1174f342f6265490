/** Failure-carrying results shared by the whole model. */
module Wrappers {

  datatype Option<+T> = None | Some(value: T)

  /** The ways an operation of the group store can fail. */
  datatype Error =
    | NotInitialized       // the vault's database handle is not set yet
    | ConstraintViolation  // a primary-key clash on insert

  datatype Result<+T> = Ok(value: T) | Err(error: Error)

  /** An operation that yields nothing but can fail. */
  datatype Outcome = Pass | Fail(error: Error)
}
