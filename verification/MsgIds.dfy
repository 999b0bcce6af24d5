/** Message ids: a counter that skips 0 and the largest number. */
module MsgIds {
  import opened Arith
  import opened Wire

  const PERIOD: nat := U64 - 2

  /** GetNewId: one more than the last, or 1 again on reaching UINT64_MAX. */
  function NewId(last: u64): (id: u64) {
    var next := (last + 1) % U64;
    if next == U64 - 1 then 1 else next
  }

  /** The id of the n-th call, counting from 1. */
  function Nth(n: nat): (id: u64) {
    if n == 0 then 0 else NewId(Nth(n - 1))
  }

  /** How often the counter has gone round, and how far it has come since. */
  lemma {:induction false} NthValue(n: nat) returns (q: nat, r: nat)
    requires n > 0
    ensures n - 1 == q * PERIOD + r && r < PERIOD && Nth(n) == r + 1
  {
    if n == 1 {
      assert Nth(0) == 0;
      q, r := 0, 0;
    } else {
      q, r := NthValue(n - 1);
      if r == PERIOD - 1 {
        q, r := q + 1, 0;
      } else {
        r := r + 1;
      }
    }
  }

  /** No id is 0, and two calls get the same id exactly when a multiple of 2^64 - 2 calls lie between
      them; so ids in any shorter stretch are distinct. */
  lemma IdsDistinct(n: nat, m: nat)
    requires 0 < n <= m
    ensures Nth(n) != 0
    ensures Nth(n) == Nth(m) <==> (m - n) % PERIOD == 0
    ensures n < m < n + PERIOD ==> Nth(n) != Nth(m)
  {
    var q, r := NthValue(n);
    var q', r' := NthValue(m);
    Gap(q, r, q', r', PERIOD);
  }

  lemma Gap(q: nat, r: nat, q': nat, r': nat, p: nat)
    requires r < p && r' < p && q * p + r <= q' * p + r'
    ensures (q' * p + r' - (q * p + r)) % p == 0 <==> r == r'
    ensures 0 < q' * p + r' - (q * p + r) < p ==> r != r'
  {
    var d := q' * p + r' - (q * p + r);
    Distribute(q', q, p);
    if q' < q {
      MulStep(q', q, p);
    } else if r <= r' {
      DivUnique(d, p, q' - q, r' - r);
    } else {
      if q' == q { assert false; }
      Distribute(q' - q, 1, p);
      DivUnique(d, p, q' - q - 1, p + r' - r);
    }
    if 0 < d < p {
      DivUnique(d, p, 0, d);
    }
  }
}
