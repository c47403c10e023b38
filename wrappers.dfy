/** The optional value the model uses wherever the source answers `false` or `null`
    for "nothing there" (a failed `fetchObject`, a missing JSON member). */
module Wrappers {

  datatype Option<+T> = None | Some(value: T) {

    /** The wrapped value, or `default` when there is none (PHP's `??`). */
    function GetOr(default: T): T {
      match this
      case Some(v) => v
      case None => default
    }
  }
}
