/** Optional values, and the outcome of a call into host code that may throw. */
module Wrappers {

  /** A value that may be missing: JavaScript's `null` / `undefined`, or NaN for a parse. */
  datatype Option<+T> = None | Some(value: T) {
    function GetOr(default: T): T {
      match this
      case Some(v) => v
      case None => default
    }
  }

  /** What a call into the host (game.i18n, foundry.utils) did: returned a value or threw. */
  datatype Call<+T> = Threw | Returned(value: T)
}
