/** Fixed-width machine integers as subsets of the integers. */
module Machine {
  type Byte = x: int | 0 <= x < 0x100
  type Word = x: int | 0 <= x < 0x1_0000
  type U32 = x: int | 0 <= x < 0x1_0000_0000
  type I32 = x: int | -0x8000_0000 <= x < 0x8000_0000

  /** Reduction of a number to 32 bits. */
  function ToU32(x: int): U32 {
    x % 0x1_0000_0000
  }

  /** The C cast of a 32-bit register value to a signed integer, and back. */
  function Signed(u: U32): I32 {
    if u < 0x8000_0000 then u else u - 0x1_0000_0000
  }

  function Unsigned(i: I32): U32 {
    if i >= 0 then i else i + 0x1_0000_0000
  }

  /** Bitwise complement of a byte. */
  function Complement(b: Byte): Byte {
    255 - b
  }
}
