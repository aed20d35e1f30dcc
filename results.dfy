/** How a decode ends: the decoded value, or the reason the decoder stopped. */
module Results {

  datatype DecodeError =
    | Truncated              // a read or a seek went past the end of the input
    | InvalidSignature       // the stream does not begin with "fLaC"
    | NonzeroPadding         // a PADDING body byte is not zero (assert(!b))
    | MinBlockSizeTooSmall   // STREAMINFO min_block_size < 16 (assert)
    | BodyTooShort           // STREAMINFO body too short for the bytes the decoder indexes

  datatype Result<T> = Ok(value: T) | Err(error: DecodeError) {
    predicate IsFailure() {
      Err?
    }

    function PropagateFailure<U>(): Result<U>
      requires Err?
    {
      Err(error)
    }

    function Extract(): T
      requires Ok?
    {
      value
    }
  }

  /** A decoding step over a byte stream: its result and the stream position it leaves
      behind, on failure as well as on success. `:-` on it yields the value paired with
      the position where the next read starts. */
  datatype Parsed<T> = Parsed(result: Result<T>, pos: nat) {
    predicate IsFailure() {
      result.Err?
    }

    function PropagateFailure<U>(): Parsed<U>
      requires result.Err?
    {
      Parsed(Err(result.error), pos)
    }

    function Extract(): (T, nat)
      requires result.Ok?
    {
      (result.value, pos)
    }
  }
}
