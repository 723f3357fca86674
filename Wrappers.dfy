/** Optional values: the model's counterpart of Python's `None`. */
module Wrappers {

  datatype Option<+T> = None | Some(value: T) {

    /** The value, or `default` when there is none. */
    function GetOr(default: T): T {
      match this
      case Some(v) => v
      case None => default
    }
  }

  /** Outcome of a call into a collaborator that may raise: a renderer tier,
      a merge append, a file copy. `Failed` carries `str(e)` of the exception. */
  datatype Attempt = Succeeded | Failed(message: string)
}
