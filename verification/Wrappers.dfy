/** The optional-value datatype used throughout the model: it stands for a
    Python value that may be `None` (element text and tail), for a lookup that
    may find nothing, and for a call that may raise. */
module Wrappers {

  datatype Option<+T> = None | Some(value: T) {

    /** The encapsulated value, or `default` when there is none. */
    function GetOr(default: T): T {
      match this
      case Some(v) => v
      case None => default
    }
  }
}
