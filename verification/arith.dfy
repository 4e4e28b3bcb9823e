/** Facts about integer multiplication and division that the solver does
    not find on its own. */
module Arith {

  lemma MulLtCancel(a: int, b: int, c: int)
    requires 0 < c && a * c < b * c
    ensures a < b
  {
  }

  lemma MulLeMono(a: int, b: int, c: int)
    requires 0 <= c && a <= b
    ensures a * c <= b * c
  {
  }

  /** A positive product of non-negative factors has no zero factor. */
  lemma ProductPositive(a: int, b: int, c: int)
    requires 0 <= a && 0 <= b && 0 <= c && 0 < a * b * c
    ensures 0 < a && 0 < b && 0 < c
  {
  }

  /** Euclidean division has exactly one quotient and remainder. */
  lemma DivModUnique(n: int, d: int, q: int, r: int)
    requires 0 < d && 0 <= r < d && n == q * d + r
    ensures n / d == q && n % d == r
  {
    var q0, r0 := n / d, n % d;
    assert q0 * d + r0 == n;
    assert (q - q0) * d == r0 - r;
    MulLtCancel(q - q0, 1, d);
    MulLtCancel(q0 - q, 1, d);
  }

  /** A digit below `w` added to a multiple of `w` stays below the next multiple. */
  lemma DigitBelow(q: int, r: int, w: int, bound: int)
    requires 0 < w && 0 <= r < w && 0 <= q < bound
    ensures q * w + r < bound * w
  {
    MulLeMono(q + 1, bound, w);
  }

  /** The number with digits (o, k, j, i) in the mixed radix (x, y, z):
      i varies fastest, o is unbounded. */
  function MixedRadix(x: int, y: int, z: int, o: int, k: int, j: int, i: int): int {
    o * (x * y * z) + k * (x * y) + j * x + i
  }

  /** Digits in range give a number below `bound` blocks of `x * y * z`, and
      the three low digits alone stay below one block. */
  lemma MixedRadixBelow(x: int, y: int, z: int, o: int, k: int, j: int, i: int, bound: int)
    requires 0 <= i < x && 0 <= j < y && 0 <= k < z && 0 <= o < bound
    ensures 0 <= k * (x * y) + j * x + i < x * y * z
    ensures 0 <= MixedRadix(x, y, z, o, k, j, i) < bound * (x * y * z)
  {
    var xy := x * y;
    var low := j * x + i;
    DigitBelow(j, i, x, y);
    DigitBelow(k, low, xy, z);
    DigitBelow(o, k * xy + low, xy * z, bound);
  }

  /** Mixed-radix digits are unique. */
  lemma MixedRadixUnique(x: int, y: int, z: int, o1: int, k1: int, j1: int, i1: int, o2: int, k2: int, j2: int, i2: int)
    requires 0 <= i1 < x && 0 <= j1 < y && 0 <= k1 < z && 0 <= o1
    requires 0 <= i2 < x && 0 <= j2 < y && 0 <= k2 < z && 0 <= o2
    requires MixedRadix(x, y, z, o1, k1, j1, i1) == MixedRadix(x, y, z, o2, k2, j2, i2)
    ensures o1 == o2 && k1 == k2 && j1 == j2 && i1 == i2
  {
    var xy := x * y;
    var xyz := xy * z;
    var low1, low2 := j1 * x + i1, j2 * x + i2;
    var local1, local2 := k1 * xy + low1, k2 * xy + low2;
    DigitBelow(j1, i1, x, y);
    DigitBelow(j2, i2, x, y);
    DigitBelow(k1, low1, xy, z);
    DigitBelow(k2, low2, xy, z);
    var n := o1 * xyz + local1;
    DivModUnique(n, xyz, o1, local1);
    DivModUnique(n, xyz, o2, local2);
    DivModUnique(local1, xy, k1, low1);
    DivModUnique(local1, xy, k2, low2);
    DivModUnique(low1, x, j1, i1);
    DivModUnique(low1, x, j2, i2);
  }

  /** Each digit is recovered by one division and one remainder. */
  lemma MixedRadixDigits(x: int, y: int, z: int, o: int, k: int, j: int, i: int)
    requires 0 <= i < x && 0 <= j < y && 0 <= k < z && 0 <= o
    ensures MixedRadix(x, y, z, o, k, j, i) % x == i
    ensures MixedRadix(x, y, z, o, k, j, i) / x % y == j
    ensures MixedRadix(x, y, z, o, k, j, i) / (x * y) % z == k
    ensures MixedRadix(x, y, z, o, k, j, i) / (x * y * z) == o
  {
    var n := MixedRadix(x, y, z, o, k, j, i);
    var xy := x * y;
    var xyz := xy * z;
    var low := j * x + i;
    var local := k * xy + low;
    DigitBelow(j, i, x, y);
    DigitBelow(k, low, xy, z);
    DivModUnique(n, xyz, o, local);
    var high := o * z + k;
    assert n == high * xy + low by {
      assert o * xyz == o * z * xy;
      assert high * xy == o * z * xy + k * xy;
    }
    DivModUnique(n, xy, high, low);
    DivModUnique(high, z, o, k);
    var q := high * y + j;
    assert n == q * x + i by {
      assert high * xy == high * y * x;
      assert q * x == high * y * x + j * x;
    }
    DivModUnique(n, x, q, i);
    DivModUnique(q, y, high, j);
  }
}
