/** The error returns of the ring operations. */
module Errors {

  /** Why a ring operation failed. */
  datatype RingError =
    | AlreadyExists(id: string)  // adding a node whose id is taken
    | NotFound(id: string)       // removing a node that is not a member
    | NoNodes                    // a lookup on an empty ring
    | KeyNotFound(key: string)   // releasing a key that holds no assignment

  /** A value, or the error that prevented computing it. */
  datatype Result<T> = Ok(value: T) | Err(error: RingError)

  /** The outcome of an operation that returns only an error. */
  datatype Outcome = Done | Fail(error: RingError)
}
