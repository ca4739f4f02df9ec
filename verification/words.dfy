/** C#'s unchecked 32-bit unsigned arithmetic, as the trie's `valuesBelow` counters use it:
    sums and differences wrap around modulo 2^32. */
module Words {

  const WORD: int := 0x1_0000_0000

  newtype uint32 = x: int | 0 <= x < 0x1_0000_0000

  /** `a + b` on two `uint` values. */
  function WrapAdd(a: uint32, b: uint32): uint32
  {
    if a as int + b as int < WORD then a + b else (a as int + b as int - WORD) as uint32
  }

  /** `a - b` on two `uint` values. */
  function WrapSub(a: uint32, b: uint32): uint32
  {
    if b <= a then a - b else (a as int - b as int + WORD) as uint32
  }

  lemma WrapAddMod(a: uint32, b: uint32)
    ensures WrapAdd(a, b) as int == (a as int + b as int) % WORD
  {
  }

  lemma WrapSubMod(a: uint32, b: uint32)
    ensures WrapSub(a, b) as int == (a as int - b as int) % WORD
  {
  }
}
