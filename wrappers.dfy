/** Small failure-carrying datatypes shared by the metrics model. */
module Wrappers {

  /** A value that may be absent: Python's `None` versus a present value. */
  datatype Option<+T> = None | Some(value: T)

  /**
   * The outcome of a call that may raise. `Err` carries the exception's
   * text, which is all that the fan-out keeps of a failure (`str(e)`).
   */
  datatype Result<+T> = Ok(value: T) | Err(error: string)
}
