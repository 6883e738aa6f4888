/** Fixed-width machine words of the interpreter: `TriWord` is a 16-bit
    unsigned integer, and output is written one byte at a time. */
module Words {

  /** Number of distinct 16-bit values. */
  const Modulus: int := 0x1_0000

  /** A `uint16_t` value. */
  type Word = x: int | 0 <= x < 0x1_0000

  /** An output byte (the low byte of a cell, as `static_cast<char>` keeps it). */
  type Byte = x: int | 0 <= x < 0x100

  /** Assignment of an arbitrary integer to a 16-bit unsigned variable:
      the value is reduced modulo 2^16 (a truncating cast, or a wrapping
      `+=` / `-=` / `++`). */
  function Wrap(x: int): (w: Word)
    ensures 0 <= x < Modulus ==> w == x
    ensures (w - x) % Modulus == 0
  {
    x % Modulus
  }

  /** The low byte of a word. */
  function LowByte(w: Word): (b: Byte)
    ensures (w - b) % 0x100 == 0
    ensures w < 0x100 ==> b == w
  {
    w % 0x100
  }

  /** Adding a multiple of 2^16 does not change a value modulo 2^16. */
  lemma ModShift(x: int, q: int)
    ensures (x + q * Modulus) % Modulus == x % Modulus
  {
  }

  /** Wrapping `c + d` moves `c` by `d` modulo 2^16. */
  lemma WrapOffset(c: int, d: int)
    ensures (Wrap(c + d) - c) % Modulus == d % Modulus
  {
    var q := (c + d) / Modulus;
    assert Wrap(c + d) - c == d + (-q) * Modulus;
    ModShift(d, -q);
  }
}
