/** The optional-value datatype the model uses wherever the publisher works
    with a value that may be missing (a dict key that is absent, a regex that
    did not match, a file that cannot be read). */
module Options {

  datatype Option<+T> = None | Some(value: T) {

    /** The wrapped value, or `default` when there is none. */
    function GetOr(default: T): T {
      match this
      case Some(v) => v
      case None => default
    }
  }
}
