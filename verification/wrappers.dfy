/** Absence and failure, as the resolvers see them: a store lookup that may find
    nothing, and a resolver that either returns a value or throws an Error with
    a message. */
module Wrappers {

  datatype Option<+T> = None | Some(value: T) {
    /** `x ?? d` for a lookup result. */
    function GetOr(default: T): T {
      match this
      case Some(v) => v
      case None => default
    }
  }

  /** A resolver outcome: its value, or the message of the Error it throws. */
  datatype Result<+T> = Ok(value: T) | Err(message: string)
}
