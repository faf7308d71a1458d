/** Outcome types shared by every decoder of the FLAC container model. */
module Errors {

  datatype Option<+T> = None | Some(value: T)

  /** Why a parse stops with an exception in the original parser. */
  datatype Error =
    | Truncated                        // a fixed-size read found fewer bytes than its layout needs
    | InvalidUtf8                      // a Vorbis comment string is not well-formed UTF-8
    | ReservedBlockType(code: nat)     // a block type 7..126: the enum lookup fails (ValueError)
    | UnsupportedBlockType(code: nat)  // a known type without a payload decoder (NotImplementedError)
    | BadSyncCode(code: nat)           // the first frame header does not start with the 14-bit sync code
    | Reserved1Set                     // the first reserved bit of the frame header is 1
    | Reserved2Set                     // the second reserved bit of the frame header is 1

  /** A value, or the error that aborted its decoding; usable with `:-`. */
  datatype Result<+T> = Ok(value: T) | Err(error: Error) {
    predicate IsFailure() { Err? }

    function PropagateFailure<U>(): Result<U>
      requires Err?
    {
      Err(error)
    }

    function Extract(): T
      requires Ok?
    {
      value
    }
  }

  /** A decoded value together with the cursor position just after the bytes it was read from. */
  datatype Parsed<+T> = Parsed(value: T, next: nat)

  /** The outcome of a decoder without the cursor it stopped at. */
  function DropCursor<T>(r: Result<Parsed<T>>): Result<T> {
    match r
    case Ok(p) => Ok(p.value)
    case Err(e) => Err(e)
  }
}
