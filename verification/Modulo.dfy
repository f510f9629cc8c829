/** Powers, and remainders for a variable modulus, which the solver does not find on its own. */
module Modulo {
  function Power(b: nat, k: nat): nat { if k == 0 then 1 else b * Power(b, k - 1) }

  lemma Multiple(k: int, m: nat)
    requires k >= 1
    ensures k * m >= m
  {
  }

  lemma QuotientUnique(m: nat, q: int, r: nat, q': int, r': nat)
    requires r < m && r' < m && q * m + r == q' * m + r'
    ensures q == q' && r == r'
  {
    assert (q - q') * m == q * m - q' * m && (q' - q) * m == q' * m - q * m;
    if q > q' {
      Multiple(q - q', m);
    } else if q < q' {
      Multiple(q' - q, m);
    }
  }

  lemma RemainderIs(x: int, m: nat, q: int, r: nat)
    requires r < m && x == q * m + r
    ensures x % m == r && x / m == q
  {
    QuotientUnique(m, q, r, x / m, x % m);
  }

  lemma StepFrom(q: nat, r: nat, d: nat, m: nat)
    requires d < m && r < m
    ensures q * m + r >= 0
    ensures (q * m + r + d) % m == if r + d < m then r + d else r + d - m
  {
    assert q * m >= 0 && (q + 1) * m == q * m + m;
    if r + d < m {
      RemainderIs(q * m + r + d, m, q, r + d);
    } else {
      RemainderIs(q * m + r + d, m, q + 1, r + d - m);
    }
  }

  /** A step of less than one turn around a ring of `m`. */
  lemma StepAround(a: nat, d: nat, m: nat)
    requires d < m
    ensures (a + d) % m == if a % m + d < m then a % m + d else a % m + d - m
  {
    StepFrom(a / m, a % m, d, m);
    assert a == a / m * m + a % m;
  }

  lemma OneTurnBack(x: int, m: nat)
    requires m > 0
    ensures (x - m) % m == x % m
  {
    var q, r := x / m, x % m;
    assert x - m == (q - 1) * m + r;
    RemainderIs(x - m, m, q - 1, r);
  }
}
