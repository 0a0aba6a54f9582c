/** Failure-carrying wrappers shared by every module of the model. */
module Wrappers {

  /** A value that may be missing: `undefined` in JavaScript, `kj::none` in KJ. */
  datatype Option<+T> = None | Some(value: T)

  /** Either a value or the error that was thrown instead of producing it. */
  datatype Result<+T, +E> = Ok(value: T) | Err(error: E)
}
