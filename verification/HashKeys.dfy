/** The keys that are hashed. */
module HashKeys {
  type Key = seq<bv8>

  /** A key and its length, as they are passed: the length is a non-negative 32-bit number. */
  predicate Sized(key: Key, len: bv32) {
    len as int == |key| < 0x8000_0000
  }

  /** A length is told by its number. */
  lemma SizedOnce(a: Key, m: bv32, b: Key, n: bv32)
    requires Sized(a, m) && Sized(b, n)
    ensures m == n <==> |a| == |b|
  {
    assert (m as int) as bv32 == m && (n as int) as bv32 == n;
  }
}
