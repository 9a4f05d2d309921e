/** The optional-value datatype used throughout the model: `None` stands for a
    JavaScript value that is absent (`undefined`, and `null` where the source
    treats both alike). */
module Wrappers {

  datatype Option<+T> = None | Some(value: T) {

    /** The value, or `default` when absent (JavaScript's `??`). */
    function GetOr(default: T): T {
      match this
      case Some(v) => v
      case None => default
    }
  }
}
