/** The C# `long` type: 64-bit two's complement, with the unchecked
    (wrap-around) arithmetic that `+`, `-` and `+=` have by default. */
module Int64 {

  const MinLong: int := -0x8000_0000_0000_0000
  const MaxLong: int :=  0x7FFF_FFFF_FFFF_FFFF
  const Modulus: int :=  0x1_0000_0000_0000_0000

  type Long = x: int | MinLong <= x <= MaxLong

  /** The value an unchecked 64-bit operation leaves when its exact result is x:
      the one long that differs from x by a multiple of 2^64. */
  function Wrap(x: int): (r: Long)
    ensures MinLong <= x <= MaxLong ==> r == x
    ensures (r - x) % Modulus == 0
  {
    (x - MinLong) % Modulus + MinLong
  }

  /** Removing whole multiples of the modulus does not change a remainder. */
  lemma ModShift(u: int, q: int)
    ensures (u - q * Modulus) % Modulus == u % Modulus
  {
  }

  /** Wrapping an intermediate result does not change the final wrapped sum:
      a chain of unchecked additions equals one wrap of the exact sum. */
  lemma WrapAdd(a: int, b: int)
    ensures Wrap(Wrap(a) + b) == Wrap(a + b)
  {
    var u := a - MinLong;
    var q := u / Modulus;
    assert Wrap(a) + b - MinLong == (u + b) - q * Modulus;
    ModShift(u + b, q);
  }
}
