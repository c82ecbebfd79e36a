/** What rounding a quotient down means. */
module Quotients {

  lemma MultiplesAreOrdered(x: int, y: int, n: nat)
    requires x <= y
    ensures x * n <= y * n
  {
    assert (y - x) * n >= 0;
  }

  lemma QuotientBounds(a: nat, n: nat, q: nat)
    requires n > 0
    ensures a < q * n <==> a / n < q
  {
    var r := a / n;
    assert r * n <= a < r * n + n;
    if q > r {
      MultiplesAreOrdered(r + 1, q, n);
    } else {
      MultiplesAreOrdered(q, r, n);
    }
  }
}
