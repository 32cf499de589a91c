/** The absent-or-present value the model uses for Java's nullable results. */
module Optional {

  datatype Option<T> = None | Some(value: T) {

    /** The wrapped value, or `default` when absent (Java's `if (x == null) x = default`). */
    function GetOr(default: T): (r: T)
      ensures Some? ==> r == value
      ensures None? ==> r == default
    {
      match this
      case Some(v) => v
      case None => default
    }
  }
}
