/** Result, the failure-carrying shape the decoder returns. */
module Wrappers {

  /** Either a decoded value or a classified error. */
  datatype Result<+R, +E> = Ok(value: R) | Err(error: E)
}
