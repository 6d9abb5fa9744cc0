/** Division facts for divisors that are not constants. */
module Arithmetic {
  /** A non-zero multiple of `m` is at least `m` away from zero. */
  lemma MultipleIsFar(m: int, d: int)
    requires 0 < m && d != 0
    ensures m <= m * d || m * d <= -m
  {
    if d > 0 {
      assert m * d == m + m * (d - 1);
      Nonnegative(m, d - 1);
    } else {
      assert m * d == -m - m * (-d - 1);
      Nonnegative(m, -d - 1);
    }
  }

  lemma Nonnegative(a: nat, b: nat)
    ensures 0 <= a * b
  {
  }

  lemma Distribute(a: int, b: int, n: int)
    ensures (a + b) * n == a * n + b * n
  {
  }

  /** Quotient and remainder are unique. */
  lemma DivMod(x: int, m: int, q: int, r: int)
    requires 0 < m && 0 <= r < m && x == m * q + r
    ensures x / m == q && x % m == r
  {
    var d := q - x / m;
    assert m * d == m * q - m * (x / m);
    assert x == m * (x / m) + x % m;
    if d != 0 {
      MultipleIsFar(m, d);
    }
  }
}
