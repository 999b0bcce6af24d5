/** Small facts about products and quotients, each stated on its own so that no proof elsewhere
    has to search for them. */
module Arith {

  lemma MulGe(k: int, m: int)
    requires k >= 1 && m >= 0
    ensures k * m >= m
  {
    if k > 1 {
      MulGe(k - 1, m);
      assert k * m == (k - 1) * m + m;
    }
  }

  lemma Distribute(a: int, b: int, m: int)
    ensures (a - b) * m == a * m - b * m
    ensures (a + b) * m == a * m + b * m
  {
  }

  /** A step up in the factor is at least a whole m up in the product. */
  lemma MulStep(a: int, b: int, m: int)
    requires a < b && m >= 0
    ensures a * m + m <= b * m
  {
    Distribute(b, a, m);
    MulGe(b - a, m);
  }

  lemma MulMono(a: int, b: int, m: int)
    requires a <= b && m >= 0
    ensures a * m <= b * m
  {
    if a < b { MulStep(a, b, m); }
  }

  lemma QuotientUnique(m: int, q: int, r: int, q': int, r': int)
    requires 0 <= r < m && 0 <= r' < m && q * m + r == q' * m + r'
    ensures q == q' && r == r'
  {
    if q > q' { MulStep(q', q, m); }
    if q < q' { MulStep(q, q', m); }
  }

  lemma DivMod(x: nat, m: nat)
    requires m > 0
    ensures x == (x / m) * m + x % m && 0 <= x % m < m && 0 <= x / m
  {
  }

  lemma DivUnique(x: nat, m: nat, q: nat, r: nat)
    requires m > 0 && r < m && x == q * m + r
    ensures x / m == q && x % m == r
  {
    DivMod(x, m);
    QuotientUnique(m, q, r, x / m, x % m);
  }
}
