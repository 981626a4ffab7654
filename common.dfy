/** Values shared by every part of the model. Ruby's `nil` is `None`. */
module Common {

  datatype Option<+T> = None | Some(value: T) {

    /** `x || default` for a value that may be nil. */
    function GetOr(default: T): T {
      match this
      case Some(v) => v
      case None => default
    }
  }
}
