/** Unsigned 32-bit machine arithmetic as `uint32_t` behaves in C++: every
    sum, difference and product is reduced modulo 2^32. Division and remainder
    of non-negative values agree with Dafny's `/` and `%`, so they are used
    directly. */
module U32 {

  const Modulus: int := 0x1_0000_0000

  type u32 = x: int | 0 <= x < Modulus

  /** The value a `uint32_t` takes when it is assigned the integer `x`. */
  function Wrap(x: int): (r: u32)
    ensures (x - r) % Modulus == 0
    ensures 0 <= x < Modulus ==> r == x
  {
    x % Modulus
  }

  function Add(a: u32, b: u32): (r: u32)
    ensures a + b < Modulus ==> r == a + b
    ensures Modulus <= a + b ==> r == a + b - Modulus
  {
    Wrap(a + b)
  }

  function Sub(a: u32, b: u32): (r: u32)
    ensures b <= a ==> r == a - b
    ensures a < b ==> r == a - b + Modulus
  {
    Wrap(a - b)
  }

  function Mul(a: u32, b: u32): (r: u32)
    ensures a * b < Modulus ==> r == a * b
    ensures (a * b - r) % Modulus == 0
  {
    MulNonneg(a, b);
    Wrap(a * b)
  }

  lemma MulNonneg(a: int, b: int)
    requires 0 <= a && 0 <= b
    ensures 0 <= a * b
  {
  }

  /** Multiplying two values that agree modulo 2^32 by the same factor gives
      values that still agree. */
  lemma MulCongruent(a: int, a2: int, c: int)
    requires (a - a2) % Modulus == 0
    ensures (a * c - a2 * c) % Modulus == 0
  {
    var t := (a - a2) / Modulus;
    assert a - a2 == Modulus * t;
    var k := t * c;
    assert a * c - a2 * c == (a - a2) * c;
    assert a * c - a2 * c == Modulus * k;
  }

  /** Agreement modulo 2^32 is transitive. */
  lemma CongruentTrans(x: int, y: int, z: int)
    requires (x - y) % Modulus == 0 && (y - z) % Modulus == 0
    ensures (x - z) % Modulus == 0
  {
    var t, u := (x - y) / Modulus, (y - z) / Modulus;
    assert x - y == Modulus * t;
    assert y - z == Modulus * u;
    assert x - z == Modulus * (t + u);
  }
}
