/**
 * Machine words of the 32-bit x86 target and the C conversions between them.
 * The handler reads every stack slot as a `uint32_t` and hands some of them
 * on as `int`; these functions make those conversions explicit.
 */
module Words {

  const WORD_MODULUS: int := 0x1_0000_0000

  /** `uint32_t`, and also a 32-bit user virtual address. */
  type u32 = x: int | 0 <= x < 0x1_0000_0000

  /** `int` on the 32-bit target. */
  type i32 = x: int | -0x8000_0000 <= x < 0x8000_0000

  /** Conversion of any C integer value to `uint32_t`: reduction modulo 2^32. */
  function ToUint32(x: int): (u: u32)
    ensures (x - u) % WORD_MODULUS == 0
    ensures 0 <= x < WORD_MODULUS ==> u == x
  {
    x % WORD_MODULUS
  }

  /**
   * Conversion of a `uint32_t` to `int` (two's complement): the same bit
   * pattern read as a signed number.
   */
  function ToInt32(u: u32): (x: i32)
    ensures ToUint32(x) == u
    ensures x < 0 <==> u >= 0x8000_0000
  {
    if u < 0x8000_0000 then u else u - WORD_MODULUS
  }

  /** The two conversions are inverse to each other on `int` values. */
  lemma Int32RoundTrip(x: i32)
    ensures ToInt32(ToUint32(x)) == x
  {
  }

  /** `p++` on a `uint32_t *`: the address advances by one word, wrapping at 2^32. */
  function NextWord(p: u32): (q: u32)
    ensures p + 4 < WORD_MODULUS ==> q == p + 4
    ensures p + 4 >= WORD_MODULUS ==> q == p + 4 - WORD_MODULUS
  {
    ToUint32(p + 4)
  }
}
