/** The C integer type the extension works in and the errors it reports. */
module Types {

  /** int64: a two's-complement 64-bit integer.  Arithmetic on this
      newtype is checked not to leave the range, which is how the model
      shows that an expression of the source cannot overflow. */
  newtype int64 = x: int | -0x8000_0000_0000_0000 <= x < 0x8000_0000_0000_0000

  const INT64_MIN: int64 := -0x8000_0000_0000_0000
  const INT64_MAX: int64 := 0x7FFF_FFFF_FFFF_FFFF

  /** The int64 that a 64-bit two's-complement machine produces for the
      mathematical value x: it agrees with x modulo 2^64. */
  function Wrap(x: int): (w: int64)
    ensures (w as int - x) % 0x1_0000_0000_0000_0000 == 0
    ensures INT64_MIN as int <= x <= INT64_MAX as int ==> w as int == x
  {
    ((x + 0x8000_0000_0000_0000) % 0x1_0000_0000_0000_0000 - 0x8000_0000_0000_0000) as int64
  }

  /** The ereport(ERROR, ...) calls of the extension, one per message.
      All of them carry ERRCODE_INVALID_PARAMETER_VALUE. */
  datatype Error =
    | SequenceTooShortToEncrypt
    | NextvalOutsideInterval
    | SequenceTooShortToDecrypt
    | ValueOutOfSequenceBounds
    | ValueOutsideRange
    | InfiniteCycleWalking

  /** What an entry point returns: an int64 or the error it raises. */
  datatype Outcome = Ok(value: int64) | Err(error: Error)
}
