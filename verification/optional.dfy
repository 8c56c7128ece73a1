/** The optional values of the model: a JavaScript property that may be
    missing, `null` or `undefined` is `None`; a present one is `Some`. */
module Optional {

  datatype Option<+T> = None | Some(value: T) {

    /** The value, or `default` when absent: JavaScript's `x || default`
        for values that are never falsy when present. */
    function GetOr(default: T): T {
      match this
      case Some(v) => v
      case None => default
    }
  }
}
