/** Option and Result, standing in for C# nullable references and for exceptions. */
module Wrappers {

  /** `None` plays the role of a C# `null` reference or an empty `Nullable<T>`. */
  datatype Option<+T> = None | Some(value: T) {
    /** The `??` operator of C#. */
    function GetOr(default: T): T {
      match this
      case Some(v) => v
      case None => default
    }
  }

  /** The outcome of an operation that may throw. */
  datatype Result<+R, +E> = Success(value: R) | Failure(error: E)
}
