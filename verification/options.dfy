/** An optional value: the model's stand-in for JavaScript `null` and Python `None`
    results (a missing DOM element, a notification that never appeared). */
module Options {

  datatype Option<+T> = None | Some(value: T) {

    /** The value, or `default` when there is none. */
    function GetOr(default: T): T {
      match this
      case Some(v) => v
      case None => default
    }
  }
}
