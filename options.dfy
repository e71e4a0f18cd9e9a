/** An optional value, standing for Python's `None` default of an argument. */
module Options {
  datatype Option<T> = None | Some(value: T)
  {
    /** The value, or the given default when there is none. */
    function GetOr(default: T): T
    {
      match this
      case None => default
      case Some(v) => v
    }
  }
}
