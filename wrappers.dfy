/** The optional values that stand for JavaScript's `undefined` and `??`. */
module Wrappers {

  datatype Option<+T> = None | Some(value: T) {

    /** `this ?? other`: the value when there is one, otherwise `other`; `?? undefined` changes nothing. */
    function OrElse(other: Option<T>): (r: Option<T>)
      ensures other.None? ==> r == this
    {
      match this
      case Some(_) => this
      case None => other
    }

    /** `this ?? default`. */
    function GetOr(default: T): T
    {
      match this
      case Some(v) => v
      case None => default
    }
  }
}
