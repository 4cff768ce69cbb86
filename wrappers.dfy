/** Small failure-carrying datatypes shared by the modules of this model. */
module Wrappers {

  /** A value that may be absent (JavaScript `undefined` / `null` results). */
  datatype Option<+T> = None | Some(value: T)

  /** The outcome of an operation that can throw: a value or an error. */
  datatype Result<+R, +E> = Ok(value: R) | Err(error: E)
}
