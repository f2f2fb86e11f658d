/** Bytes as the transport carries them, and the two in-band flow-control bytes. */
module Bytes {

  /** One octet on the wire. C++ `char` is read back through `unsigned char`, so a byte is 0..255. */
  type Byte = b: int | 0 <= b < 256

  /** Resume sending (DC1). */
  const XON: Byte := 0x11
  /** Stop sending (DC3). */
  const XOFF: Byte := 0x13

  datatype Option<+T> = None | Some(value: T)

  function Min(a: int, b: int): int { if a <= b then a else b }

  function Max(a: int, b: int): int { if a <= b then b else a }
}
