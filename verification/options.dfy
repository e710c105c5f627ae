/** JavaScript's two "absent" values, `null` and `undefined`, as one `None`.
    Every use of an optional field in the modelled code (`??`, `?.`, `!= null`)
    treats the two alike, so one constructor is enough. */
module Options {

  datatype Option<+T> = None | Some(value: T) {

    /** The nullish-coalescing operator `this ?? default`. */
    function OrElse(default: T): (r: T)
      ensures Some? ==> r == value
      ensures None? ==> r == default
    {
      match this
      case Some(v) => v
      case None => default
    }

    /** `this ?? other` where the right operand is itself optional. */
    function Or(other: Option<T>): (r: Option<T>)
      ensures r.None? <==> None? && other.None?
      ensures Some? ==> r == this
      ensures None? ==> r == other
    {
      if Some? then this else other
    }
  }
}
