/** Division facts shared by the models that cut a position into a unit and an
offset, or an index into a group and a bit. */
module Arith {

  lemma MulSign(x: int, m: nat)
    ensures x >= 1 ==> x * m >= m
    ensures x <= -1 ==> x * m + m <= 0
  {
    if x >= 1 {
      assert (x - 1) * m >= 0;
    } else if x <= -1 {
      assert (x + 1) * m <= 0;
    }
  }

  /** Quotient and remainder are determined by their defining equation. */
  lemma DivUnique(n: int, m: nat, q: int, r: nat)
    requires r < m && n == q * m + r
    ensures n / m == q && n % m == r
  {
    var e, f := n / m, n % m;
    assert (e - q) * m == r - f by {
      assert n == e * m + f;
      assert (e - q) * m == e * m - q * m;
    }
    MulSign(e - q, m);
  }

  lemma QuotientNat(a: nat, n: nat)
    requires n > 0
    ensures a / n >= 0
  {
    if a / n < 0 {
      MulSign(a / n, n);
    }
  }
}
