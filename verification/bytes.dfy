/**
 * Java `byte` values, kept as their bit pattern read unsigned (0..255).
 * `0xff & b` is then the identity and the narrowing cast `(byte) x` keeps
 * the low eight bits of `x`.
 */
module Bytes {

  type Byte = x: int | 0 <= x < 256

  /** The narrowing cast `(byte) x` of a Java `int`. */
  function ToByte(x: int): (b: Byte)
    ensures (b - x) % 256 == 0
  {
    x % 256
  }
}
