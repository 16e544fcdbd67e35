/** The 32-bit `int` of the program and the two's-complement wrap-around that
    GCC produces for an overflowing `int` addition. */
module MachineInt {

  const MinInt32: int := -0x8000_0000
  const MaxInt32: int := 0x7fff_ffff
  const Modulus32: int := 0x1_0000_0000

  type Int32 = x: int | MinInt32 <= x <= MaxInt32

  predicate InRange32(x: int) {
    MinInt32 <= x <= MaxInt32
  }

  /** The 32-bit value that the bits of `x` stand for. */
  function Wrap32(x: int): (r: Int32)
    ensures (r - x) % Modulus32 == 0
    ensures InRange32(x) ==> r == x
  {
    (x - MinInt32) % Modulus32 + MinInt32
  }

  /** Wrapping after every addition is the same as wrapping once at the end. */
  lemma WrapAdd(a: int, b: int)
    ensures Wrap32(Wrap32(a) + b) == Wrap32(a + b)
  {
    var q := (a - MinInt32) / Modulus32;
    assert Wrap32(a) == a - q * Modulus32;
    ModShift(a + b - MinInt32, q);
  }

  lemma ModShift(z: int, q: int)
    ensures (z - q * Modulus32) % Modulus32 == z % Modulus32
  {
    var r := z % Modulus32;
    var d := z / Modulus32;
    assert z == d * Modulus32 + r;
    assert z - q * Modulus32 == (d - q) * Modulus32 + r;
  }
}
