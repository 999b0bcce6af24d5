/** The 32-bit rounding, slot-index and page-expansion arithmetic of the memory pool. */
module Rounding {
  import opened Arith

  const U32: nat := 0x1_0000_0000

  function Pow2(n: nat): (r: nat)
    ensures r > 0
  {
    if n == 0 then 1 else 2 * Pow2(n - 1)
  }

  /** `x << s` on a 32-bit unsigned integer. */
  function Shl(x: nat, s: nat): (r: nat) {
    (x * Pow2(s)) % U32
  }

  /** `x >> s` on an unsigned integer. */
  function Shr(x: nat, s: nat): (r: nat) {
    DivMod(x, Pow2(s));
    x / Pow2(s)
  }

  /** Bitwise `x & y`, bit by bit from the lowest. */
  function And(x: nat, y: nat): (r: nat)
    decreases x
  {
    if x == 0 then 0 else (if x % 2 == 1 && y % 2 == 1 then 1 else 0) + 2 * And(x / 2, y / 2)
  }

  /** roundup_to_the_next_highest_multiple_of_exponent2: shift out the high bits to test the low
      ones, otherwise mask the low ones away and add one step, all modulo 2^32. */
  function Roundup(x: nat, e: nat): (r: nat)
    requires x < U32 && 1 <= e <= 31
  {
    if Shl(x, 32 - e) == 0 then x
    else (And(x, Shl(Shr(U32 - 1, e), e)) + Shl(2, e - 1)) % U32
  }

  /** convert_slot_obj_size_to_slot_idx */
  function SlotIdx(size: nat, footstep: nat): (r: nat)
    requires footstep > 0
  {
    size / footstep
  }

  /** gen_expand_slot_page_size, with the 32-bit products written out. */
  function ExpandPageSize(objSize: nat, factor: nat, pageSize: nat): (r: nat)
    requires pageSize > 0
  {
    var want := (objSize * factor) % U32;
    var pageCnt := want / pageSize + if want % pageSize != 0 then 1 else 0;
    (pageCnt * pageSize) % U32
  }

  // ----- powers of two

  lemma {:induction false} Pow2Add(a: nat, b: nat)
    ensures Pow2(a + b) == Pow2(a) * Pow2(b)
  {
    if a != 0 {
      Pow2Add(a - 1, b);
      assert (2 * Pow2(a - 1)) * Pow2(b) == 2 * (Pow2(a - 1) * Pow2(b));
    }
  }

  lemma Pow2At4()
    ensures Pow2(4) == 16
  {
    assert Pow2(2) == 4;
  }

  lemma Pow2At32()
    ensures Pow2(32) == U32
  {
    hide Pow2;
    Pow2At4();
    Pow2Add(4, 4);
    Pow2Add(8, 8);
    Pow2Add(16, 16);
  }

  lemma ScaledMod(x: nat, m: nat, k: nat)
    requires m > 0 && k > 0
    ensures m * k > 0 && (x * k) % (m * k) == (x % m) * k
  {
    DivMod(x, m);
    var q, r := x / m, x % m;
    MulStep(r, m, k);
    MulGe(m, k);
    assert x * k == q * (m * k) + r * k;
    DivUnique(x * k, m * k, q, r * k);
  }

  // ----- the mask

  /** Masking with e low zeros and w-e ones above clears the low e bits. */
  lemma {:induction false} AndHighMask(x: nat, w: nat, e: nat, q: nat, r: nat)
    requires e <= w && x < Pow2(w) && x == q * Pow2(e) + r && r < Pow2(e)
    ensures And(x, (Pow2(w - e) - 1) * Pow2(e)) == q * Pow2(e)
    decreases w
  {
    if e == 0 {
      AndOnes(x, w);
    } else {
      var top, m := Pow2(w - e) - 1, Pow2(e - 1);
      Doubled(top, m);
      Doubled(q, m);
      AndDouble(x, top * m);
      AndHighMask(x / 2, w - 1, e - 1, q, r / 2);
    }
  }

  lemma Doubled(a: int, m: int)
    ensures a * (2 * m) == 2 * (a * m)
  {
  }

  lemma AndDouble(x: nat, y: nat)
    ensures And(x, 2 * y) == 2 * And(x / 2, y)
  {
    assert (2 * y) % 2 == 0 && (2 * y) / 2 == y;
  }

  lemma AndOdd(x: nat, y: nat)
    requires x > 0
    ensures And(x, 2 * y + 1) == x % 2 + 2 * And(x / 2, y)
  {
    assert (2 * y + 1) % 2 == 1 && (2 * y + 1) / 2 == y;
  }

  lemma {:induction false} AndOnes(x: nat, w: nat)
    requires x < Pow2(w)
    ensures And(x, Pow2(w) - 1) == x
  {
    if x != 0 {
      var h := Pow2(w - 1);
      assert Pow2(w) - 1 == 2 * (h - 1) + 1;
      AndOdd(x, h - 1);
      AndOnes(x / 2, w - 1);
    }
  }

  // ----- what rounding computes

  ghost predicate IsLeastMultiple(r: nat, x: nat, m: nat)
    requires m > 0
  {
    && r % m == 0
    && x <= r
    && forall c: nat | c % m == 0 && x <= c :: r <= c
  }

  lemma LeastMultiple(x: nat, m: nat, q: nat, rem: nat)
    requires m > 0 && rem < m && x == q * m + rem
    ensures rem == 0 ==> IsLeastMultiple(x, x, m)
    ensures rem != 0 ==> IsLeastMultiple(q * m + m, x, m)
  {
    if rem == 0 {
      DivUnique(x, m, q, 0);
    } else {
      Distribute(q, 1, m);
      DivUnique(q * m + m, m, q + 1, 0);
      forall c: nat | c % m == 0 && x <= c
        ensures q * m + m <= c
      {
        DivMod(c, m);
        if c / m <= q { MulMono(c / m, q, m); } else { MulStep(q, c / m, m); }
      }
    }
  }

  lemma LowBitsScaled(x: nat, m: nat, k: nat)
    requires m > 0 && k > 0
    ensures m * k > 0
    ensures (x * k) % (m * k) == 0 <==> x % m == 0
  {
    ScaledMod(x, m, k);
    if x % m != 0 { MulGe(x % m, k); }
  }

  /** The bits below e are all zero exactly when the shifted-out test says so. */
  lemma LowBits(x: nat, e: nat)
    requires x < U32 && 1 <= e <= 31
    ensures Shl(x, 32 - e) == 0 <==> x % Pow2(e) == 0
  {
    Pow2At32();
    Pow2Add(e, 32 - e);
    LowBitsScaled(x, Pow2(e), Pow2(32 - e));
  }

  lemma MaskAndStep(e: nat)
    requires 1 <= e <= 31
    ensures Shl(Shr(U32 - 1, e), e) == (Pow2(32 - e) - 1) * Pow2(e)
    ensures Shl(2, e - 1) == Pow2(e)
    ensures Pow2(32 - e) * Pow2(e) == U32
  {
    Pow2At32();
    Pow2Add(32 - e, e);
    var top, m := Pow2(32 - e), Pow2(e);
    assert m == 2 * Pow2(e - 1) && top == 2 * Pow2(31 - e);
    Distribute(top, 1, m);
    MulMono(2, top, m);
    DivUnique(U32 - 1, m, top - 1, m - 1);
    DivUnique(U32 - m, U32, 0, U32 - m);
    DivUnique(m, U32, 0, m);
  }

  /** The rounding in closed form: the input, or the next multiple modulo 2^32. */
  lemma RoundupValue(x: nat, e: nat, q: nat, rem: nat)
    requires x < U32 && 1 <= e <= 31 && x == q * Pow2(e) + rem && rem < Pow2(e)
    ensures rem == 0 ==> Roundup(x, e) == x
    ensures rem != 0 ==> Roundup(x, e) == (q * Pow2(e) + Pow2(e)) % U32
  {
    LowBits(x, e);
    DivUnique(x, Pow2(e), q, rem);
    if rem != 0 {
      RoundupMasked(x, e, q, rem);
    }
  }

  lemma RoundupMasked(x: nat, e: nat, q: nat, rem: nat)
    requires x < U32 && 1 <= e <= 31 && x == q * Pow2(e) + rem && rem < Pow2(e)
    ensures And(x, Shl(Shr(U32 - 1, e), e)) + Shl(2, e - 1) == q * Pow2(e) + Pow2(e)
  {
    MaskAndStep(e);
    Pow2At32();
    AndHighMask(x, 32, e, q, rem);
  }

  /** Where the next multiple lies relative to 2^32. */
  lemma NextMultiple(q: nat, rem: nat, m: nat, top: nat)
    requires rem < m && top * m == U32 && q * m + rem < U32
    ensures q * m + m <= U32
    ensures q * m + m == U32 <==> q * m + rem >= U32 - m
    ensures q * m + m < U32 ==> q * m + m <= U32 - m
  {
    Distribute(q, 1, m);
    if q + 1 < top {
      MulStep(q + 1, top, m);
    } else if q >= top {
      MulMono(top, q, m);
    }
  }

  /** Rounding is the least multiple of 2^e not below its input exactly when such a multiple fits in
      32 bits; for larger inputs it wraps to zero. */
  lemma RoundupLeast(x: nat, e: nat)
    requires x < U32 && 1 <= e <= 31
    ensures IsLeastMultiple(Roundup(x, e), x, Pow2(e)) <==> x <= U32 - Pow2(e)
    ensures x > U32 - Pow2(e) ==> Roundup(x, e) == 0
    ensures x <= U32 - Pow2(e) ==> Roundup(x, e) - x < Pow2(e)
  {
    hide Roundup, IsLeastMultiple, Pow2;
    var q, rem := x / Pow2(e), x % Pow2(e);
    DivMod(x, Pow2(e));
    RoundupValue(x, e, q, rem);
    MaskAndStep(e);
    LeastOrZero(x, Pow2(e), q, rem, Pow2(32 - e), Roundup(x, e));
  }

  lemma LeastOrZero(x: nat, m: nat, q: nat, rem: nat, top: nat, r: nat)
    requires rem < m && x == q * m + rem < U32 && top * m == U32
    requires r == if rem == 0 then x else (q * m + m) % U32
    ensures IsLeastMultiple(r, x, m) <==> x <= U32 - m
    ensures x > U32 - m ==> r == 0
    ensures x <= U32 - m ==> r - x < m
  {
    LeastMultiple(x, m, q, rem);
    NextMultiple(q, rem, m, top);
  }

  /** A size up to a threshold rounds to a slot of the table 1..threshold/2^e exactly when it is not above
      the last multiple of the footstep; then less than one footstep is wasted. */
  lemma SlotReached(size: nat, threshold: nat, e: nat)
    requires 1 <= e <= 31 && 0 < size <= threshold < U32
    ensures var idx := SlotIdx(Roundup(size, e), Pow2(e));
      && (1 <= idx <= threshold / Pow2(e) <==> size <= threshold - threshold % Pow2(e))
      && (size <= threshold - threshold % Pow2(e) ==>
            Roundup(size, e) == idx * Pow2(e) && size <= Roundup(size, e) < size + Pow2(e))
  {
    hide Roundup, Pow2;
    RoundupLeast(size, e);
    DivMod(Roundup(size, e), Pow2(e));
    DivMod(threshold, Pow2(e));
    LastMultiple(threshold, e);
    if size <= U32 - Pow2(e) {
      IndexReached(size, Pow2(e), Roundup(size, e), Roundup(size, e) / Pow2(e), threshold / Pow2(e));
    } else {
      DivUnique(0, Pow2(e), 0, 0);
    }
  }

  /** The last multiple below 2^32 is one step below it. */
  lemma LastMultiple(x: nat, e: nat)
    requires 1 <= e <= 31 && x < U32
    ensures x - x % Pow2(e) <= U32 - Pow2(e)
  {
    hide Pow2;
    DivMod(x, Pow2(e));
    MaskAndStep(e);
    BelowTop(x / Pow2(e), Pow2(32 - e), Pow2(e));
  }

  lemma BelowTop(q: nat, top: nat, m: nat)
    requires q * m < top * m
    ensures q * m + m <= top * m
  {
    if q >= top {
      MulMono(top, q, m);
    } else {
      MulStep(q, top, m);
    }
  }

  lemma IndexReached(size: nat, m: nat, r: nat, idx: nat, last: nat)
    requires m > 0 && 0 < size && r == idx * m && IsLeastMultiple(r, size, m)
    ensures 1 <= idx && (idx <= last <==> size <= last * m)
  {
    DivUnique(last * m, m, last, 0);
    if idx <= last {
      MulMono(idx, last, m);
    } else {
      MulStep(last, idx, m);
    }
  }

  /** Every size up to a threshold finds a slot in the table 1..threshold/2^e exactly when the
      threshold is a multiple of the footstep. */
  lemma TableCovers(lo: nat, threshold: nat, e: nat)
    requires 1 <= e <= 31 && lo < threshold < U32
    ensures (forall size: nat | lo < size <= threshold ::
               1 <= SlotIdx(Roundup(size, e), Pow2(e)) <= threshold / Pow2(e))
            <==> threshold % Pow2(e) == 0
  {
    hide Roundup, SlotIdx, Pow2;
    forall size: nat | lo < size <= threshold
      ensures 1 <= SlotIdx(Roundup(size, e), Pow2(e)) <= threshold / Pow2(e)
              <==> size <= threshold - threshold % Pow2(e)
    {
      SlotReached(size, threshold, e);
    }
    assert 1 <= SlotIdx(Roundup(threshold, e), Pow2(e)) <= threshold / Pow2(e) <==> threshold % Pow2(e) == 0;
  }

  /** An expanded page is a whole number of system pages and holds at least the wanted objects. */
  lemma ExpandPageHolds(objSize: nat, factor: nat, pageSize: nat)
    requires 0 < objSize && 0 < pageSize && 0 < factor
    requires objSize * factor + pageSize <= U32
    ensures ExpandPageSize(objSize, factor, pageSize) % pageSize == 0
    ensures objSize * factor <= ExpandPageSize(objSize, factor, pageSize) < objSize * factor + pageSize
    ensures ExpandPageSize(objSize, factor, pageSize) / objSize >= factor
  {
    hide ExpandPageSize;
    ExpandPageValue(objSize, factor, pageSize, objSize * factor);
    AtLeast(ExpandPageSize(objSize, factor, pageSize), objSize, factor);
  }

  lemma ExpandPageValue(objSize: nat, factor: nat, pageSize: nat, want: nat)
    requires 0 < pageSize && want == objSize * factor && want + pageSize <= U32
    ensures ExpandPageSize(objSize, factor, pageSize) % pageSize == 0
    ensures want <= ExpandPageSize(objSize, factor, pageSize) < want + pageSize
  {
    WholePages(want, pageSize);
    NoWrap(want);
    NoWrap((want / pageSize + if want % pageSize != 0 then 1 else 0) * pageSize);
  }

  lemma NoWrap(x: nat)
    requires x < U32
    ensures x % U32 == x
  {
  }

  /** The least whole number of pages that holds the wanted bytes. */
  lemma WholePages(want: nat, pageSize: nat)
    requires 0 < pageSize && want + pageSize <= U32
    ensures var n := want / pageSize + if want % pageSize != 0 then 1 else 0;
      n >= 0 && want <= n * pageSize < want + pageSize && (n * pageSize) % pageSize == 0
  {
    DivMod(want, pageSize);
    var q := want / pageSize;
    Distribute(q, 1, pageSize);
    DivUnique(q * pageSize, pageSize, q, 0);
    DivUnique(q * pageSize + pageSize, pageSize, q + 1, 0);
  }

  lemma AtLeast(r: nat, d: nat, k: nat)
    requires d > 0 && d * k <= r
    ensures r / d >= k
  {
    DivMod(r, d);
    if r / d < k { MulStep(r / d, k, d); }
  }
}
