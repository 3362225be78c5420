// Bytes as the C sources use them, and the option type shared by the parsers.
module Bytes {

  type byte = b: int | 0 <= b < 256

  type pos = n: nat | n >= 1 witness 1

  datatype Option<+T> = None | Some(value: T)

  /** What storing an integer into an unsigned char keeps of it. */
  function U8(v: int): byte {
    if 0 <= v < 256 then v else v % 256
  }

  /** What converting a size to a 32-bit signed integer makes of it. */
  function AsInt(n: nat): int {
    if n % 0x1_0000_0000 < 0x8000_0000 then n % 0x1_0000_0000 else n % 0x1_0000_0000 - 0x1_0000_0000
  }
}
