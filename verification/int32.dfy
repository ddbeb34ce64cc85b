/** C#'s 32-bit `int` and its unchecked (wrapping) arithmetic. */
module Int32 {

  const Min: int := -0x8000_0000
  const Max: int := 0x7fff_ffff
  const Modulus: int := 0x1_0000_0000

  predicate InRange(x: int) {
    Min <= x <= Max
  }

  /** The value an unchecked C# `int` operation produces when its exact result
      is `x`: the unique 32-bit value congruent to `x` modulo 2^32. */
  function Wrap(x: int): (r: int)
    ensures InRange(r)
    ensures (x - r) % Modulus == 0
    ensures InRange(x) ==> r == x
  {
    var m := x % Modulus;
    if m <= Max then m else m - Modulus
  }

  /** A non-negative factor of an in-range product with a positive factor
      is itself in range. */
  lemma FactorInRange(a: int, b: int)
    requires a >= 0 && b >= 1 && InRange(a * b)
    ensures 0 <= a <= a * b && InRange(a)
  {
    assert a * b == a + a * (b - 1);
    assert a * (b - 1) >= 0;
  }
}
