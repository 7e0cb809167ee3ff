/** The optional value used wherever the negotiation may produce nothing:
    no chosen algorithm, no parsed preference, no quality value. */
module Wrappers {

  datatype Option<+T> = None | Some(value: T) {

    /** Returns the value held in Some, or `default` for None. */
    function GetOr(default: T): T {
      match this
      case Some(v) => v
      case None => default
    }
  }
}
