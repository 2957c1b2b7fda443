/** C# references that may be null: `None` is `null`. */
module Nullable {

  datatype Option<+T> = None | Some(value: T) {

    /** The C# `x ?? fallback` operator. */
    function GetOr(fallback: T): T
    {
      match this
      case Some(v) => v
      case None => fallback
    }
  }
}
