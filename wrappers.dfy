/** Value wrappers for JavaScript's `null`/`undefined` and for thrown errors. */
module Wrappers {

  /** `None` stands for JavaScript's `null` or `undefined`; `Some(v)` for a present value. */
  datatype Option<+T> = None | Some(value: T)

  /** `Err(message)` stands for an `Error` thrown with that message. */
  datatype Result<+T> = Ok(value: T) | Err(message: string)
}
