/** Option and Result: the absent values (`undefined`, `null`, a NaN from an
    empty maximum) and the thrown errors of the modelled scripts. */
module Wrappers {

  datatype Option<+T> = None | Some(value: T)
  {
    /** The value inside Some, or `default` for None. */
    function GetOr(default: T): T
    {
      match this
      case Some(v) => v
      case None => default
    }
  }

  datatype Result<+T, +E> = Ok(value: T) | Err(error: E)
}
