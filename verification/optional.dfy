/** The optional values the library returns where Python uses `None` or a missing dictionary key. */
module Optional {

  datatype Option<+T> = None | Some(value: T) {

    /** The carried value, or `default` for `None`: Python's `dict.get(key, default)`. */
    function GetOr(default: T): T {
      match this
      case Some(v) => v
      case None => default
    }
  }
}
