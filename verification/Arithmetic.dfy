/** Facts about products, quotients and powers that several parts of the model share. */
module Arithmetic {

  lemma MulMonotone(d: int, x: int, y: int)
    requires 0 <= d && x <= y
    ensures d * x <= d * y
  {
  }

  lemma DivUnique(x: int, d: int, q: int, r: int)
    requires d > 0 && 0 <= r < d && x == d * q + r
    ensures x / d == q && x % d == r
  {
    var q', r' := x / d, x % d;
    var k := q' - q;
    assert d * q' == d * q + d * k;
    assert d * k == r - r';
    if k >= 1 {
      MulMonotone(d, 1, k);
    } else if k <= -1 {
      MulMonotone(d, k, -1);
    }
  }

  lemma QuotientIs(x: int, q: int, d: int, r: int)
    requires d > 0 && 0 <= r < d && x == q * d + r
    ensures x / d == q && x % d == r
  {
    assert q * d == d * q;
    DivUnique(x, d, q, r);
  }

  lemma DivMod(x: int, d: int)
    requires d > 0
    ensures x == d * (x / d) + x % d && 0 <= x % d < d
  {
  }

  /** The quotient is the largest number whose product does not exceed. */
  lemma DivBounds(x: int, d: int)
    requires d > 0
    ensures d * (x / d) <= x < d * (x / d) + d
  {
  }

  lemma DivLess(x: int, d: int, q: int)
    requires d > 0 && x < d * q
    ensures x / d < q
  {
    DivBounds(x, d);
    if q <= x / d { MulMonotone(d, q, x / d); }
  }

  lemma DivAtLeast(x: int, d: int, q: int)
    requires d > 0 && d * q <= x
    ensures q <= x / d
  {
    DivBounds(x, d);
    if x / d + 1 <= q { MulMonotone(d, x / d + 1, q); }
  }

  type Byte = x: nat | x < 256

  const UINT16_MAX := 0xffff
  const UINT64 := 0x1_0000_0000_0000_0000

  /** Reducing on the way changes nothing. */
  lemma ModTimesPlus(n: int, factor: int, c: int, m: int)
    requires m > 0
    ensures ((n % m) * factor + c) % m == (n * factor + c) % m
  {
    var q, r := n / m, n % m;
    var k := r * factor + c;
    assert n * factor == (q * m + r) * factor == (q * factor) * m + r * factor;
    DivMod(k, m);
    QuotientIs(n * factor + c, q * factor + k / m, m, k % m);
  }

  function Pow2(n: nat): (r: nat)
    ensures r >= 1
  {
    if n == 0 then 1 else 2 * Pow2(n - 1)
  }
}
