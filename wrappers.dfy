/** Option and Result, the failure-aware return types used across the model. */
module Wrappers {

  datatype Option<+T> = None | Some(value: T)

  /** `Err` carries the path whose read failed: the scripts abort on the first such read. */
  datatype Result<+T> = Ok(value: T) | Err(path: string)
}
