/** Failure-compatible wrappers shared by the whole model. */
module Wrappers {

  datatype Option<+T> = None | Some(value: T) {
    predicate IsFailure() { None? }

    function PropagateFailure<U>(): Option<U>
      requires None?
    {
      None
    }

    function Extract(): T
      requires Some?
    {
      value
    }
  }

  /** The ways an assembly run can stop without producing an object file.
      The original program has no error reporting for any of these: it either
      loops forever (Unterminated), writes past its word buffer (MemoryFull) or
      takes whatever the C library makes of a malformed numeral (BadNumber). */
  datatype Error =
    | Unterminated(marker: string)   // end of input before `.data` / `.text`
    | MemoryFull                     // a word would be written at or past MEM_WORDS
    | BadNumber(token: string)       // a numeral that is not plain decimal / 0x-hex in range

  /** The result of a step that can stop the run. */
  datatype Result<+T> = Success(value: T) | Failure(error: Error) {
    predicate IsFailure() { Failure? }

    function PropagateFailure<U>(): Result<U>
      requires Failure?
    {
      Failure(error)
    }

    function Extract(): T
      requires Success?
    {
      value
    }
  }
}
