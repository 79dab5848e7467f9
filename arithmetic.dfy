
/** Integer facts shared by the hash-index and the decimal-arithmetic models. */
module Arithmetic {

  lemma {:induction false} MulAtLeast(m: int, d: int)
    requires m > 0 && d > 0
    ensures m * d >= m
  {
    if d > 1 {
      MulAtLeast(m, d - 1);
      assert m * d == m * (d - 1) + m;
    }
  }

  /** Quotient and remainder are determined by `a == m * t + x` with `0 <= x < m`. */
  lemma ModUnique(a: int, m: int, t: int, x: int)
    requires m > 0 && a == m * t + x && 0 <= x < m
    ensures a % m == x && a / m == t
  {
    var d := a / m - t;
    assert m * d == x - a % m;
    if d > 0 {
      MulAtLeast(m, d);
    } else if d < 0 {
      MulAtLeast(m, -d);
    }
  }
}
