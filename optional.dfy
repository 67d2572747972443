/** A value that may be missing: Python's `None`, or a dictionary key that is absent. */
module Optional {
  datatype Option<T> = None | Some(value: T) {
    function GetOr(default: T): T {
      match this
      case Some(v) => v
      case None => default
    }
  }
}
