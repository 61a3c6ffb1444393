/** Optional values: JavaScript's `undefined` for optional record fields,
    a missing DOM element, or an event that calls no callback. */
module Wrappers {

  datatype Option<+T> = None | Some(value: T) {

    /** Returns the value held in Some, or a default when None. */
    function GetOr(default: T): T {
      match this
      case Some(v) => v
      case None => default
    }
  }
}
