/** Outcome values for the list's index checks. */
module Outcomes {

  /** The single failure the list reports: an index outside the valid range
      (IndexOutOfBoundsException in the original). */
  datatype Error = IndexOutOfBounds

  /** Outcome of an operation that yields a value. */
  datatype Result<T> = Ok(value: T) | Err(error: Error)

  /** Outcome of an operation that yields nothing. */
  datatype Status = Done | Failed(error: Error)
}
