/** Option and Outcome values that stand for the .NET exceptions of the modelled code. */
module Wrappers {

  datatype Option<+T> = None | Some(value: T)

  /** Pass, or the failure a .NET call would have thrown. */
  datatype Outcome<+E> = Pass | Fail(error: E)

  /** A value, or the failure a .NET call would have thrown instead of returning it. */
  datatype Result<+T, +E> = Success(value: T) | Failure(error: E)
}
