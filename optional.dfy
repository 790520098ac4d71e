/** An optional value: JavaScript's `undefined` or `null` on one side, a present value on the other. */
module Optional {

  datatype Option<+T> = None | Some(value: T) {

    /** The value when present, otherwise the given default (the `??` operator). */
    function GetOr(default: T): T
    {
      match this
      case Some(v) => v
      case None => default
    }
  }
}
