/** Optional values: the model's stand-in for JavaScript's null/undefined fields. */
module Wrappers {
  datatype Option<+T> = None | Some(value: T)
  {
    /** The value, or a default when absent (JavaScript's `x || d` on a present-or-absent field). */
    function GetOr(default: T): T
    {
      match this
      case Some(v) => v
      case None => default
    }
  }

  function Min(a: int, b: int): int { if a <= b then a else b }
  function Max(a: int, b: int): int { if a >= b then a else b }
}
