/** The optional-value datatype shared by every module of the model: SQL NULL,
    a Python `None` return and a JavaScript `null`/`undefined` all become `None`. */
module Wrappers {

  datatype Option<+T> = None | Some(value: T) {

    /** The wrapped value, or `default` when there is none (JavaScript `x ?? default`). */
    function GetOr(default: T): T {
      match this
      case Some(v) => v
      case None => default
    }
  }
}
