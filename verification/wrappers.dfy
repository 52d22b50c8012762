/** Optional values and fallible results, as Rust's `Option` and `Result`. */
module Wrappers {

  datatype Option<+T> = None | Some(value: T)
  {
    function UnwrapOr(default: T): T
    {
      if Some? then value else default
    }
  }

  datatype Result<+T, +E> = Ok(value: T) | Err(error: E)
  {
    function ToOption(): Option<T>
    {
      if Ok? then Some(value) else None
    }
  }
}
