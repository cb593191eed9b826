/** Conversions to 32-bit numbers. */
module Words {

  /** To an unsigned number. */
  function U32(v: int): nat { v % 0x1_0000_0000 }

  /** To a signed number, in two's complement. */
  function S32(v: int): int { (v + 0x8000_0000) % 0x1_0000_0000 - 0x8000_0000 }
}
