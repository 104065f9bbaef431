/** Option and Result, and the error values the decoders return. */
module Wrappers {

  datatype Option<+T> = None | Some(value: T)

  /** Why a byte string was refused. The constructors follow the error enum of the types crate. */
  datatype Error =
    | Malformed(what: string)
    | Length(expected: nat, got: nat)
    | Unsupported(value: int)
    | Inconsistent(what: string)
    | Reorg(number: nat)

  datatype Result<+T> = Ok(value: T) | Err(error: Error) {
    predicate IsFailure() {
      Err?
    }

    function PropagateFailure<U>(): Result<U>
      requires Err?
    {
      Err(error)
    }

    function Extract(): T
      requires Ok?
    {
      value
    }
  }
}
