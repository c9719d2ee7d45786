/** Option and Result: the model's stand-ins for C# `null` and for exceptions. */
module Wrappers {

  /** `None` plays the part of a C# `null` reference or an absent `Nullable<T>`. */
  datatype Option<+T> = None | Some(value: T)

  /** The outcome of a library call that may throw instead of returning. */
  datatype Result<+T, +E> = Success(value: T) | Failure(error: E)
}
