/** A request-body field that may be missing. `None` is JavaScript's
    `undefined`; `Some("")`, `Some(0)` and `Some(false)` are present but falsy,
    which the handlers treat differently from `None`. */
module Optional {

  datatype Option<+T> = None | Some(value: T) {

    /** The value when present, otherwise `default`. */
    function GetOr(default: T): (r: T) {
      match this
      case Some(v) => v
      case None => default
    }
  }
}
