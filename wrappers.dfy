/** Optional values and success/failure results shared by the grid modules. */
module Wrappers {

  /** A value that may be absent: JavaScript's `undefined`/`null`, or a field a partial object leaves out. */
  datatype Option<+T> = None | Some(value: T)

  /** The outcome of a call that either returns a value or throws an error carrying a message. */
  datatype Result<+T> = Ok(value: T) | Err(message: string)

  /** The outcome of a call that returns nothing or throws an error carrying a message. */
  datatype Outcome = Pass | Fail(message: string)
}
