/** Optional values and error results shared by the catalogue model. */
module Wrappers {

  /** A nullable value: `None` stands for C#'s `null` or a `Nullable<T>` without a value. */
  datatype Option<+T> = None | Some(value: T) {

    /** The wrapped value, or `default` when there is none (C#'s `??`). */
    function GetOr(default: T): T {
      match this
      case Some(v) => v
      case None => default
    }
  }

  /** The outcome of an operation that either returns a value or raises an error. */
  datatype Result<+R, +E> = Success(value: R) | Failure(error: E)
}
