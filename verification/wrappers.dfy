/** The optional-value datatype shared by every module of the model.
    A JavaScript `undefined` result is `None`; a present value is `Some`. */
module Wrappers {

  datatype Option<+T> = None | Some(value: T) {

    /** The wrapped value, or `default` when there is none (the `??` operator). */
    function GetOr(default: T): T {
      match this
      case Some(v) => v
      case None => default
    }
  }
}
