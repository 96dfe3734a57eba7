/** Optional values: JavaScript's `undefined`/`null` for an omitted argument. */
module Wrappers {

  /** `None` stands for both `undefined` and `null`: `isVisible` and
      `getVariantColors` only ever test them together, through `??` and
      `== null`. */
  datatype Option<+T> = None | Some(value: T) {

    /** The `??` operator: this value when present, otherwise `other`. */
    function OrElse(other: Option<T>): (r: Option<T>)
      ensures Some? ==> r == this
      ensures None? ==> r == other
    {
      match this
      case Some(_) => this
      case None => other
    }

    /** `x ?? d` where `d` is a plain value: never absent. */
    function GetOr(default: T): (r: T)
      ensures Some? ==> r == value
      ensures None? ==> r == default
    {
      match this
      case Some(v) => v
      case None => default
    }
  }
}
