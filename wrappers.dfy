// Option and Result values used wherever the Python code returns None or raises.
module Wrappers {

  datatype Option<T> = None | Some(value: T)
  {
    predicate IsSome() { Some? }

    /** The value, or `default` when there is none (Python's `x if x is not None else default`). */
    function GetOr(default: T): T
    {
      match this
      case Some(v) => v
      case None => default
    }
  }

  /** A Python exception is modelled as an `Err` carrying the exception's kind. */
  datatype Result<T> = Ok(value: T) | Err(error: string)
}
