/** Byte strings and fixed-width integers as PHP sees them: `strlen`, `substr`
    and `nl2br` count and edit bytes, never characters, and a PHP `int` is a
    signed 64-bit integer. */
module Bytes {

  newtype byte = x: int | 0 <= x < 256

  /** A PHP string: a sequence of bytes. */
  type Bytes = seq<byte>

  /** A PHP integer on a 64-bit build. */
  newtype int64 = x: int | -0x8000_0000_0000_0000 <= x < 0x8000_0000_0000_0000

  const LF: byte := 10
  const CR: byte := 13

  /** "..." */
  const Ellipsis: Bytes := [46, 46, 46]

  function Min(a: int, b: int): int
  {
    if a <= b then a else b
  }
}
