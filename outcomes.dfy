/** The failures the core reports to its caller instead of aborting the run. */
module Outcomes {

  datatype Error =
    | InvalidRange       // the trims are longer than the input
    | InvalidDimensions  // a curve pass on a grid that is not a power-of-two square

  /** A value or the reason there is none. */
  datatype Result<T> = Ok(value: T) | Err(error: Error)

  /** Success or failure of an operation that changes state and returns nothing. */
  datatype Outcome = Pass | Fail(error: Error)
}
