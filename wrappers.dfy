/** Option and Result: the "value or nothing" and "value or error" shapes the
    TypeScript code expresses with `undefined`, `null` and tagged results. */
module Wrappers {

  datatype Option<+T> = None | Some(value: T) {
    function GetOr(default: T): T {
      match this
      case Some(v) => v
      case None => default
    }
  }

  datatype Result<+R, +E> = Ok(value: R) | Err(error: E)
}
