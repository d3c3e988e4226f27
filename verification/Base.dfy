/** Shared basics. */
module Base {

  datatype Option<+T> = None | Some(value: T)

  /** One more than the largest 32-bit unsigned value. */
  const U32: nat := 0x1_0000_0000

  newtype Byte = x: int | 0 <= x < 256

  /** The low eight bits of a number. */
  function ByteOf(x: nat): (b: Byte)
    ensures b as int == x % 256
  {
    (x % 256) as Byte
  }
}
