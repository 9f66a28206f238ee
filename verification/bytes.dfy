/**
  Fixed-width integers of the wire protocol and their little-endian byte
  representation. The model assumes a little-endian host, so `cpu_to_le16`
  and `le16_to_cpu` are the identity and only the byte split remains.
 */
module Bytes {

  /** One byte on the bus (`__u8`). */
  type byte = x: int | 0 <= x < 0x100

  /** An unsigned 16-bit field (`__u16`). */
  type u16 = x: int | 0 <= x < 0x1_0000

  /** An unsigned 32-bit value (`u32`). */
  type u32 = x: int | 0 <= x < 0x1_0000_0000

  /** The low byte of a 16-bit value, `val & 0xff`. */
  function Lo(v: u16): byte {
    v % 0x100
  }

  /** The high byte of a 16-bit value, `val >> 8`. */
  function Hi(v: u16): byte {
    v / 0x100
  }

  /** Reads a little-endian 16-bit value from its two bytes; it is the inverse of the split. */
  function Le16(lo: byte, hi: byte): (v: u16)
    ensures Lo(v) == lo && Hi(v) == hi
  {
    lo + 0x100 * hi
  }

  /** Splitting a 16-bit value into its two bytes and reading them back yields the value. */
  lemma Le16OfSplit(v: u16)
    ensures Le16(Lo(v), Hi(v)) == v
  {
  }

  /** The C conversion of an `int` to `u16`: reduction modulo 2^16. */
  function ToU16(x: int): (v: u16)
    ensures 0 <= x < 0x1_0000 ==> v == x
    ensures (v - x) % 0x1_0000 == 0
  {
    x % 0x1_0000
  }
}
