/** Failure-compatible result types shared by every module of the model.
    The relay signals failure by throwing .NET exceptions; the model returns
    `Fail(e)` instead, with `e` naming the exception family. */
module Results {

  /** The exception families the modelled code can raise. */
  datatype Error =
    | OutOfRange        // IndexOutOfRange / ArgumentOutOfRange: a read or slice past the buffer
    | NotSupported      // an RTCP version or packet type the parser does not handle
    | InvalidOperation  // a STUN magic cookie mismatch
    | NullReference     // a member access through a null reference
    | ArgumentNull      // a null argument to a parser or constructor
    | KeyNotFound       // a dictionary lookup of a missing key
    | DuplicateKey      // a dictionary insertion of an existing key
    | Format            // a numeric token that does not parse
    | Overflow          // a numeric token outside the range of its type
    | CryptoFailure     // an AES key of an unsupported length
    | Argument          // an array copied into a destination too short for it

  datatype Option<+T> = None | Some(value: T) {
    predicate IsFailure() { None? }

    function PropagateFailure<U>(): Option<U>
      requires None?
    {
      None
    }

    function Extract(): T
      requires Some?
    {
      value
    }

    function GetOr(default: T): T {
      if Some? then value else default
    }
  }

  datatype Result<+T> = Ok(value: T) | Fail(error: Error) {
    predicate IsFailure() { Fail? }

    function PropagateFailure<U>(): Result<U>
      requires Fail?
    {
      Fail(error)
    }

    function Extract(): T
      requires Ok?
    {
      value
    }
  }
}
