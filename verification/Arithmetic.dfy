/** Division facts. */
module Arithmetic {

  lemma MulMonotone(b: nat, x: int, y: int)
    requires x <= y
    ensures b * x <= b * y
  {
  }

  lemma MulGap(b: nat, x: int, y: int)
    requires b > 0 && x < y
    ensures b * y - b * x >= b
  {
    MulMonotone(b, 1, y - x);
    assert b * y - b * x == b * (y - x);
  }

  lemma QuotientUnique(b: nat, q: int, m: int, q': int, m': int)
    requires b > 0 && b * q + m == b * q' + m' && 0 <= m < b && 0 <= m' < b
    ensures q == q' && m == m'
  {
    if q < q' {
      MulGap(b, q, q');
    } else if q > q' {
      MulGap(b, q', q);
    }
  }

  lemma DivModUnique(a: int, b: nat, q: int, m: int)
    requires b > 0 && a == b * q + m && 0 <= m < b
    ensures a / b == q && a % b == m
  {
    QuotientUnique(b, q, m, a / b, a % b);
  }

  /** Counting on by one carries exactly when the remainder is full. */
  lemma NextRemainder(x: nat, m: nat)
    requires m > 0
    ensures (x + 1) % m == if x % m + 1 == m then 0 else x % m + 1
    ensures (x + 1) / m == if x % m + 1 == m then x / m + 1 else x / m
  {
    var q, r := x / m, x % m;
    if r + 1 == m {
      assert x + 1 == m * (q + 1);
      DivModUnique(x + 1, m, q + 1, 0);
    } else {
      DivModUnique(x + 1, m, q, r + 1);
    }
  }
}
