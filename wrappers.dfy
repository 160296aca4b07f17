/** Option and Result values standing for JavaScript's `null` and thrown errors. */
module Wrappers {

  /** `None` plays the part of JavaScript `null`. */
  datatype Option<+T> = None | Some(value: T)

  /** `Err` plays the part of an exception thrown by the plugin. */
  datatype Result<+T, +E> = Ok(value: T) | Err(error: E)
}
