/** Option and Result, the two failure-carrying types the model uses for
    `T | null` values and for thrown errors. */
module Wrappers {

  datatype Option<+T> = None | Some(value: T) {
    function GetOr(default: T): T {
      match this
      case Some(v) => v
      case None => default
    }
  }

  /** `Failure(message)` stands for a thrown `Error` carrying that message. */
  datatype Result<+T> = Success(value: T) | Failure(error: string)
}
