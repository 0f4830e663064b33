/** The optional value used for every "may be missing" answer of the model:
    a station lookup that finds nothing, a collaborator that failed, a
    minimum over an empty list. */
module Wrappers {

  datatype Option<+T> = None | Some(value: T) {

    /** The wrapped value, or `default` when there is none (Python's `dict.get(key, default)`). */
    function GetOr(default: T): T {
      match this
      case Some(v) => v
      case None => default
    }
  }
}
