/** Division with remainder, read off from a sum. */
module Arithmetic {

  lemma {:induction false} QuotientIs(n: int, d: int, q: int, r: int)
    requires 0 <= r < d && n == d * q + r
    ensures n / d == q && n % d == r
  {
    var e := n / d - q;
    assert n == d * (n / d) + n % d;
    assert d * e == d * (n / d) - d * q;
    Multiples(e, d);
  }

  lemma {:induction false} Multiples(m: int, d: int)
    requires d > 0
    ensures m <= -1 ==> d * m <= -d
    ensures m >= 1 ==> d * m >= d
  {
  }
}
