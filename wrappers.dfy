/** Optional values and error-carrying results, used where the C# source returns
    null or throws. */
module Wrappers {

  datatype Option<T> = None | Some(value: T)
  {
    /** The value, or `default` when there is none (C#'s `??`). */
    function GetOr(default: T): T
    {
      match this
      case None => default
      case Some(v) => v
    }
  }

  /** `Err` stands for an exception thrown by the source. */
  datatype Result<T, E> = Ok(value: T) | Err(error: E)
}
