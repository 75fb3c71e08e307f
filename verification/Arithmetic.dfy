/** Facts about division and remainder by a variable. */
module Arithmetic {
  lemma MulAtLeast(m: int, x: int)
    requires m > 0 && x >= 1
    ensures m * x >= m
  {
  }

  lemma MulMinus(m: int, p: int, q: int)
    ensures m * p - m * q == m * (p - q)
  {
  }

  /** The remainder is the only number below the divisor at a multiple's distance. */
  lemma ModIs(a: int, m: int, q: int, r: int)
    requires m > 0 && 0 <= r < m && a == m * q + r
    ensures a % m == r && a / m == q
  {
    var p, s := a / m, a % m;
    MulMinus(m, p, q);
    if p > q {
      MulAtLeast(m, p - q);
    } else if p < q {
      MulAtLeast(m, q - p);
      MulMinus(m, q, p);
    }
  }

  lemma ModStep(a: nat, m: int)
    requires m > 0
    ensures (a % m + 1) % m == (a + 1) % m
  {
    var q, r := a / m, a % m;
    assert a == m * q + r;
    if r + 1 < m {
      ModIs(a + 1, m, q, r + 1);
      ModIs(r + 1, m, 0, r + 1);
    } else {
      MulMinus(m, q + 1, q);
      ModIs(a + 1, m, q + 1, 0);
      ModIs(r + 1, m, 1, 0);
    }
  }

  lemma SmallMod(a: nat, m: int)
    requires a < m
    ensures a % m == a
  {
  }

  /** Adding less than the divisor brings back the same remainder only by adding nothing. */
  lemma ModApart(a: nat, d: nat, m: int)
    requires 0 < d < m
    ensures (a + d) % m != a % m
  {
    var q, r := a / m, a % m;
    if r + d < m {
      ModIs(a + d, m, q, r + d);
    } else {
      MulMinus(m, q + 1, q);
      ModIs(a + d, m, q + 1, r + d - m);
    }
  }

  /** Every remainder is reached within one full turn. */
  lemma ModReached(a: nat, i: nat, m: int) returns (d: nat)
    requires i < m
    ensures 0 < d <= m && (a + d) % m == i
  {
    var q, r := a / m, a % m;
    if r < i {
      d := i - r;
      ModIs(a + d, m, q, i);
    } else {
      d := i + m - r;
      MulMinus(m, q + 1, q);
      ModIs(a + d, m, q + 1, i);
    }
  }
}
