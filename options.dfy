/** The optional value used throughout the model for "absent": a missing
    file, an exhausted input stream, a string that does not parse. */
module Options {

  datatype Option<+T> = None | Some(value: T) {

    /** The carried value, or `default` when there is none. */
    function GetOr(default: T): T {
      match this
      case Some(v) => v
      case None => default
    }
  }
}
