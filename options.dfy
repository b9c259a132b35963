/** The optional value returned by a saved-state lookup or by the event channel. */
module Options {

  datatype Option<+T> = None | Some(value: T) {

    /** The value if present, else `default` (Kotlin's `?:`). */
    function GetOr(default: T): T {
      match this
      case Some(v) => v
      case None => default
    }
  }
}
