/** Option and Result, standing for the source's nullable references and thrown exceptions. */
module Wrappers {

  /** `None` plays the part of a C# `null`. */
  datatype Option<+T> = None | Some(value: T)

  /** `Failure` plays the part of an exception the source throws. */
  datatype Result<+R, +E> = Success(value: R) | Failure(error: E)
}
