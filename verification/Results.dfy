/** The error conditions a box operation can report, and the result type carrying them. */
module Results {
  import opened Bytes

  datatype Error =
    | Truncated(offset: nat)                        // a read would pass the end of the bytes available to it
    | BadBoxSize(offset: nat)                       // a declared box size smaller than the box's own header
    | UnexpectedType(offset: nat, found: seq<byte>) // a box whose four-character code is not the expected one
    | SizeMismatch(offset: nat)                     // a box's content ends before its declared size does
    | IndexOutOfRange(index: nat)                   // an entry index at or past the entry count
    | CountOverflow                                 // the 16-bit entry count cannot grow any further

  datatype Result<T> = Ok(value: T) | Err(error: Error)
}
