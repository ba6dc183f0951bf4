/** An optional value: `None` stands for JavaScript's `undefined` / `null`
    wherever the source only asks whether a value is present. */
module Options {

  datatype Option<+T> = None | Some(value: T) {

    /** The wrapped value, or `default` when there is none. */
    function GetOr(default: T): T
    {
      match this
      case Some(v) => v
      case None => default
    }
  }
}
