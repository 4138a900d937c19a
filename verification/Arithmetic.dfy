/** Unbounded integers as the code's fixed-width ones: the range of 32 bits, and division facts
    that the solver does not find by itself. */
module Arithmetic {

  const U32: nat := 0x1_0000_0000

  lemma Product(a: int, b: int, m: nat)
    requires a > b
    ensures a * m >= b * m + m
    decreases a - b
  {
    if a == b + 1 {
    } else {
      Product(a - 1, b, m);
    }
  }

  lemma Associate(a: int, b: int, c: int)
    ensures a * (b * c) == (a * b) * c
  {
  }

  /** Quotient and remainder are the only numbers that divide `v` by `m`. */
  lemma DivideIs(v: int, m: int, a: int, b: int)
    requires m > 0 && v == a * m + b && 0 <= b < m
    ensures v / m == a && v % m == b
  {
    var q, r := v / m, v % m;
    assert v == q * m + r;
    if q > a {
      Product(q, a, m);
    } else if q < a {
      Product(a, q, m);
    }
  }
}
