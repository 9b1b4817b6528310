/** Results shared by the readers of a bit stream. */
module Streams {
  datatype Option<+T> = None | Some(value: T)

  /** The exceptions a reader throws. */
  datatype ReadError = EndOfStream | OutOfRange | InvalidBitCount | ArrayTooLong

  /** What reading a value at a position yields: the value and the position after it, or an exception. */
  datatype Decoded<+T> = Decoded(value: T, next: nat) | Failed(error: ReadError)
}
