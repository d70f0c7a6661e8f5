/** Absolute values and integer division by a variable. */
module Arithmetic {

  function AbsReal(x: real): (a: real)
    ensures a >= 0.0
  {
    if x < 0.0 then -x else x
  }

  lemma AtMost(m: nat, a: int, b: int)
    requires a <= b
    ensures m * a <= m * b
  {
    assert m * (b - a) == m * b - m * a;
    assert m * (b - a) >= 0;
  }

  lemma {:induction false} ProductAtLeast(m: nat, x: int)
    requires x >= 1
    ensures m * x >= m
  {
    if x > 1 {
      ProductAtLeast(m, x - 1);
      assert m * x == m * (x - 1) + m;
    }
  }

  lemma ProductBetween(m: nat, x: int, y: int)
    requires m * x == y && 0 - m < y < m
    ensures x == 0
  {
    if x > 0 {
      ProductAtLeast(m, x);
    } else if x < 0 {
      assert m * -x == -y;
      ProductAtLeast(m, -x);
    }
  }

  lemma QuotientRemainder(n: nat, m: nat, a: nat, b: nat)
    requires b < m && n == m * a + b
    ensures n / m == a && n % m == b
  {
    var q, r := n / m, n % m;
    assert m * (q - a) == b - r;
    ProductBetween(m, q - a, b - r);
  }
}
