/** Machine words: the sizes of the index and counter types, and bounds on integers. */
module Words {
  const USIZE_MAX: nat := 0xFFFF_FFFF_FFFF_FFFF
  const U32_VALUES: nat := 0x1_0000_0000
  const U64_VALUES: nat := 0x1_0000_0000_0000_0000

  function Min(a: int, b: int): int { if a <= b then a else b }

  function Max(a: int, b: int): int { if a >= b then a else b }
}
