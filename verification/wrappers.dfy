/** Small failure-compatible datatypes shared by every module of the model. */
module Wrappers {

  /** A JavaScript value that may be `undefined`/`null`. */
  datatype Option<+T> = None | Some(value: T) {
    predicate IsFailure() {
      None?
    }

    function PropagateFailure<U>(): Option<U>
      requires None?
    {
      None
    }

    function Extract(): T
      requires Some?
    {
      value
    }
  }

  /** The outcome of a step that may throw; `error` is the thrown `Error`'s message. */
  datatype Result<+T> = Success(value: T) | Failure(error: string)

  /** One octet of a Node.js `Buffer`. */
  type uint8 = x: int | 0 <= x < 256
}
