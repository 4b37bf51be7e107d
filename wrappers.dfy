/** Optional values and results with an error message. */
module Wrappers {

  /**
    An optional value. In the dashboard's derived columns `None` stands for a
    non-finite floating-point result (NaN or infinity) of a division by zero.
   */
  datatype Option<+T> = None | Some(value: T)

  /** A value, or the error that a computation raises. */
  datatype Result<+T> = Ok(value: T) | Failure(error: string)
}
