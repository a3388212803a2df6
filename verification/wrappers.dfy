/** Optional values and results with an error, as the rest of the model uses them. */
module Wrappers {

  /** A value that may be absent (a SQL NULL, a JavaScript null or undefined). */
  datatype Option<+T> = None | Some(value: T)

  /** The outcome of a server action: a value, or the error the action throws. */
  datatype Result<+T, +E> = Ok(value: T) | Err(error: E)
}
