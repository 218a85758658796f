/** Machine word sizes, and facts about products, quotients and remainders that the solver needs spelled out. */
module Arithmetic {
  const WORD32: nat := 0x1_0000_0000
  const WORD64: nat := 0x1_0000_0000_0000_0000

  type Byte = b: nat | b < 256

  lemma MulLe(a: nat, x: int, y: int)
    requires x <= y
    ensures a * x <= a * y
  {
  }

  /** x == m * q + r with 0 <= r < m determines q and r. */
  lemma DivModUnique(x: int, q: int, r: int, m: nat)
    requires m > 0 && x == m * q + r && 0 <= r < m
    ensures x / m == q && x % m == r
  {
    var d := x / m - q;
    assert m * d == r - x % m;
    if d > 0 {
      MulLe(m, 1, d);
    }
  }

  lemma ModShift(x: int, k: int, m: nat)
    requires m > 0
    ensures (x + m * k) % m == x % m
  {
    var q := x / m;
    assert x + m * k == m * (q + k) + x % m;
    DivModUnique(x + m * k, q + k, x % m, m);
  }

  lemma DivDiv(x: nat, a: nat, b: nat)
    requires a > 0 && b > 0
    ensures a * b > 0 && x / a / b == x / (a * b)
  {
    var q := x / a / b;
    assert x / a == b * q + x / a % b;
    var r := a * (x / a % b) + x % a;
    assert a * (b * q) == (a * b) * q;
    assert x == (a * b) * q + r;
    MulLe(a, x / a % b, b - 1);
    DivModUnique(x, q, r, a * b);
  }
}
