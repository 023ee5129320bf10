/** Quotients and remainders of the integers. */
module Quotients {

  /** A quotient and a remainder in range are the only ones. */
  lemma QuotientIs(a: int, m: nat, q: int, r: nat)
    requires r < m && a == q * m + r
    ensures a / m == q && a % m == r
  {
    var d := a / m - q;
    assert d * m == r - a % m;
    MultipleBound(d, m);
  }

  lemma RemainderIs(a: int, m: nat, q: int, r: nat)
    requires r < m && a == q * m + r
    ensures a % m == r
  {
    QuotientIs(a, m, q, r);
  }

  lemma MultipleBound(d: int, m: nat)
    requires m >= 1
    ensures d >= 1 ==> d * m >= m
    ensures d <= -1 ==> d * m + m <= 0
  {
  }
}
