/** Failure values of the BARCH codec. The source reports every failure by throwing
    an exception with a fixed message; here each message is a constructor of `Error`
    and every operation that can throw returns a `Result`. */
module Results {

  datatype Error =
    | InvalidInput        // "encode: invalid input image"
    | TooSmall            // "decode: too small"
    | BadMagic            // "decode: bad magic"
    | UnsupportedVersion  // "decode: unsupported version"
    | Truncated           // "decode: truncated file"
    | EndOfBitstream      // "Unexpected end of bitstream"
    | RowIndexOutOfRange  // the row index holds fewer than ceil(H/8) bytes

  datatype Option<+T> = None | Some(value: T)

  datatype Result<+T> = Ok(value: T) | Err(error: Error)
  {
    predicate IsFailure() { Err? }

    function PropagateFailure<U>(): Result<U>
      requires Err?
    {
      Err(error)
    }

    function Extract(): T
      requires Ok?
    {
      value
    }
  }

  /** Success or failure of an operation that only changes state. */
  datatype Outcome = Pass | Fail(error: Error)
}
