/** Java integer semantics that the chunk code relies on: the 32-bit `int`
    range, division and remainder that truncate toward zero, and the
    sign-extending promotion of a `byte` to an `int`. */
module JavaInt {

  const INT_MIN: int := -0x8000_0000
  const INT_MAX: int := 0x7FFF_FFFF

  predicate IsInt32(v: int) {
    INT_MIN <= v <= INT_MAX
  }

  /** Java's `a / b` for a positive divisor: the quotient rounded toward zero
      (Dafny's own `/` rounds toward negative infinity here). */
  function JavaDiv(a: int, b: int): (q: int)
    requires b > 0
    ensures a >= 0 ==> 0 <= a - q * b < b
    ensures a < 0 ==> -b < a - q * b <= 0
  {
    if a >= 0 then a / b else -((-a) / b)
  }

  /** Java's `a % b` for a positive divisor: the remainder takes the sign of `a`. */
  function JavaMod(a: int, b: int): (r: int)
    requires b > 0
    ensures a >= 0 ==> 0 <= r < b
    ensures a < 0 ==> -b < r <= 0
    ensures (a - r) % b == 0
  {
    var q := JavaDiv(a, b);
    MultipleMod(q, b);
    a - q * b
  }

  /** A multiple of `b` leaves no remainder. */
  lemma MultipleMod(q: int, b: int)
    requires b > 0
    ensures (q * b) % b == 0
  {
    var m := q * b;
    var d, r := m / b, m % b;
    assert m == d * b + r && 0 <= r < b;
    var k := q - d;
    assert k * b == r by {
      assert k * b == q * b - d * b;
    }
  }

  /** A Java `byte` is held as its 8-bit two's-complement pattern. */
  type Byte = bv8

  /** The value of a byte as Java reads it (signed). */
  function SignedValue(b: Byte): (v: int)
    ensures -128 <= v < 128
    ensures v >= 0 <==> b & 0x80 == 0
  {
    if b & 0x80 == 0 then b as int else b as int - 256
  }

  /** Java's promotion of a `byte` operand to `int` (as in `row & INDEX[x]`):
      the low byte is kept and bit 7 is copied into the upper 24 bits. */
  function SignExtend(b: Byte): (w: bv32)
    ensures w & 0xFF == b as bv32
    ensures b & 0x80 == 0 ==> w >> 8 == 0
    ensures b & 0x80 != 0 ==> w >> 8 == 0xFF_FFFF
  {
    if b & 0x80 == 0 then b as bv32 else (b as bv32) | 0xFFFF_FF00
  }
}
