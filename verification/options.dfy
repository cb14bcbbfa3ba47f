/** Python's `Optional[T]`: a value that may be `None`. */
module Options {

  datatype Option<+T> = None | Some(value: T) {

    /** The carried value, or `default` for `None`. */
    function GetOr(default: T): T {
      match this
      case Some(v) => v
      case None => default
    }
  }
}
