/** Failure-carrying datatypes shared by the flasher model. */
module Wrappers {

  /** An optional value: a missing word or a decoding failure of `unpack` in sn32-hid.js becomes None. */
  datatype Option<+T> = None | Some(value: T)

  /** A computed value or the error that aborted the computation. */
  datatype Result<+T, +E> = Success(value: T) | Failure(error: E)

  /** Success without a value (the `return true` of `validateFirmware`) or the error that was thrown. */
  datatype Outcome<+E> = Pass | Fail(error: E)
}
