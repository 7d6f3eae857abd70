/** Failure-compatible results, and the byte strings every layer works on. */
module Wrappers {

  datatype Option<+T> = None | Some(value: T) {
    predicate IsFailure() { None? }

    function PropagateFailure<U>(): Option<U>
      requires None?
    {
      None
    }

    function Extract(): T
      requires Some?
    {
      value
    }
  }

  /** Why a decoder gave up. `Undefined` stands for C behaviour the language
      standard leaves undefined (a signed left shift that overflows). */
  datatype Fault = Truncated | TooBig | Undefined | Malformed

  datatype Result<+T> = Ok(value: T) | Err(fault: Fault) {
    predicate IsFailure() { Err? }

    function PropagateFailure<U>(): Result<U>
      requires Err?
    {
      Err(fault)
    }

    function Extract(): T
      requires Ok?
    {
      value
    }
  }

  type byte = x: int | 0 <= x < 256

  type Str = seq<byte>
}
