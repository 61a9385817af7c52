/** A value a stored record may lack. */
module Options {

  datatype Option<T> = None | Some(value: T) {

    /** The value, or `default` when there is none (JavaScript's `x || default` on a field that may be absent). */
    function GetOr(default: T): (r: T)
      ensures Some? ==> r == value
      ensures None? ==> r == default
    {
      match this
      case Some(v) => v
      case None => default
    }
  }
}
