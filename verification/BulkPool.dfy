/** The bulk level of the memory pool: slots of whole system pages, found through a hash index for
    exact matches and an ordered index for a best-fit window. */
module BulkPool {
  import opened Options
  import opened Arith
  import opened Rounding
  import opened Slabs
  import opened Pool
  import opened PageSets

  const RESERVE_MAX_SIZE := 1048576
  const EXPAND_BULK_OBJ_CNT_FACTOR := 4

  /** Slot i holds objects of i system pages. Objects below the reserve limit come four to a page and
      stay resident up to a limit; larger ones come alone and are dropped on put. The slot exactly at
      the limit is allocated like the larger ones and put like the smaller ones. */
  function BulkShape(pageSize: nat, resident: nat, i: nat): (sh: Shape) {
    var slotSize := i * pageSize;
    if slotSize < RESERVE_MAX_SIZE then
      Shape(slotSize, slotSize * EXPAND_BULK_OBJ_CNT_FACTOR, resident, Trims)
    else if slotSize == RESERVE_MAX_SIZE then Shape(slotSize, slotSize, resident, Keeps)
    else Shape(slotSize, slotSize, resident, Drops)
  }

  /** All slots a 32-bit size can round to. */
  function BulkShapes(pageExp: nat, resident: nat): (shapes: Shapes<nat>)
    requires 1 <= pageExp <= 31
  {
    map i: nat | 1 <= i < Pow2(32 - pageExp) :: BulkShape(Pow2(pageExp), resident, i)
  }

  lemma BulkShapeOk(pageSize: nat, resident: nat, i: nat)
    requires pageSize > 0 && i > 0
    ensures var sh := BulkShape(pageSize, resident, i);
      && sh.Ok() && sh.slotSize == i * pageSize && sh.resident == resident
      && sh.PerPage() == (if i * pageSize < RESERVE_MAX_SIZE then EXPAND_BULK_OBJ_CNT_FACTOR else 1)
  {
    MulGe(i, pageSize);
    DivUnique(i * pageSize * EXPAND_BULK_OBJ_CNT_FACTOR, i * pageSize, EXPAND_BULK_OBJ_CNT_FACTOR, 0);
    DivUnique(i * pageSize, i * pageSize, 1, 0);
  }

  /** The expansion of a whole number of pages is exactly the objects asked for. */
  lemma ExpandExact(pageSize: nat, i: nat)
    requires pageSize > 0 && i * pageSize <= RESERVE_MAX_SIZE
    ensures ExpandPageSize(i * pageSize, EXPAND_BULK_OBJ_CNT_FACTOR, pageSize)
         == i * pageSize * EXPAND_BULK_OBJ_CNT_FACTOR
  {
    hide ExpandPageSize;
    FourTimes(i, pageSize);
    ExpandWhole(i * pageSize, pageSize, i * EXPAND_BULK_OBJ_CNT_FACTOR);
  }

  lemma FourTimes(i: nat, p: nat)
    ensures i * p * EXPAND_BULK_OBJ_CNT_FACTOR == (i * EXPAND_BULK_OBJ_CNT_FACTOR) * p
  {
  }

  lemma ExpandWhole(size: nat, pageSize: nat, n: nat)
    requires pageSize > 0 && size * EXPAND_BULK_OBJ_CNT_FACTOR == n * pageSize < U32
    ensures ExpandPageSize(size, EXPAND_BULK_OBJ_CNT_FACTOR, pageSize) == n * pageSize
  {
    NoWrap(n * pageSize);
    DivUnique(n * pageSize, pageSize, n, 0);
  }

  /** A request rounds to one of the slots. */
  lemma NeedInRange(pageExp: nat, size: nat)
    requires 1 <= pageExp <= 31 && 0 < size <= U32 - Pow2(pageExp)
    ensures var need := SlotIdx(Roundup(size, pageExp), Pow2(pageExp));
      1 <= need < Pow2(32 - pageExp) && need * Pow2(pageExp) == Roundup(size, pageExp) && size <= need * Pow2(pageExp)
  {
    MaskAndStep(pageExp);
    var m, top := Pow2(pageExp), Pow2(32 - pageExp);
    Distribute(top, 1, m);
    DivUnique(U32 - m, m, top - 1, 0);
    SlotReached(size, U32 - m, pageExp);
  }

  /** The bulk slots are exactly those some size rounds to. */
  lemma SlotsRounded(pageExp: nat, resident: nat, k: nat)
    requires 1 <= pageExp <= 31
    ensures k in BulkShapes(pageExp, resident) <==>
      exists size: nat :: 0 < size <= U32 - Pow2(pageExp) && SlotIdx(Roundup(size, pageExp), Pow2(pageExp)) == k
  {
    hide Roundup, Pow2;
    var p := Pow2(pageExp);
    if 1 <= k < Pow2(32 - pageExp) {
      RoundsToItself(k, pageExp);
    }
    forall size: nat | 0 < size <= U32 - p && SlotIdx(Roundup(size, pageExp), p) == k
      ensures k in BulkShapes(pageExp, resident)
    {
      NeedInRange(pageExp, size);
    }
  }

  lemma RoundsToItself(k: nat, pageExp: nat)
    requires 1 <= pageExp <= 31 && 1 <= k < Pow2(32 - pageExp)
    ensures var size := k * Pow2(pageExp);
      0 < size <= U32 - Pow2(pageExp) && SlotIdx(Roundup(size, pageExp), Pow2(pageExp)) == k
  {
    hide Roundup, Pow2;
    MaskAndStep(pageExp);
    var p, top := Pow2(pageExp), Pow2(32 - pageExp);
    MulGe(k, p);
    MulStep(k, top, p);
    RoundupValue(k * p, pageExp, k, 0);
    DivUnique(k * p, p, k, 0);
  }

  // ----- the ordered index

  ghost predicate Sorted(s: seq<nat>) {
    forall i, j | 0 <= i < j < |s| :: s[i] < s[j]
  }

  lemma Inserted(s: seq<nat>, i: nat, k: nat)
    requires Sorted(s) && i <= |s| && (forall j | 0 <= j < i :: s[j] < k) && (forall j | i <= j < |s| :: k < s[j])
    ensures var r := s[..i] + [k] + s[i..]; Sorted(r) && forall x :: x in r <==> x in s || x == k
  {
    var r := s[..i] + [k] + s[i..];
    assert s == s[..i] + s[i..];
    forall j, l | 0 <= j < l < |r|
      ensures r[j] < r[l]
    {
      assert j != i ==> r[j] == s[if j < i then j else j - 1];
      assert l != i ==> r[l] == s[if l < i then l else l - 1];
    }
  }

  method Insert(s: seq<nat>, k: nat) returns (r: seq<nat>)
    requires Sorted(s)
    ensures Sorted(r) && forall x :: x in r <==> x in s || x == k
  {
    var i := 0;
    while i < |s| && s[i] < k
      invariant 0 <= i <= |s| && forall j | 0 <= j < i :: s[j] < k
    {
      i := i + 1;
    }
    if i < |s| && s[i] == k {
      return s;
    }
    Inserted(s, i, k);
    return s[..i] + [k] + s[i..];
  }

  lemma Erased(s: seq<nat>, i: nat)
    requires Sorted(s) && i < |s|
    ensures var r := s[..i] + s[i + 1..]; Sorted(r) && forall x :: x in r <==> x in s && x != s[i]
  {
    var r := s[..i] + s[i + 1..];
    assert s == s[..i] + [s[i]] + s[i + 1..];
    forall j, l | 0 <= j < l < |r|
      ensures r[j] < r[l]
    {
      assert r[j] == s[if j < i then j else j + 1] && r[l] == s[if l < i then l else l + 1];
    }
  }

  method Erase(s: seq<nat>, k: nat) returns (r: seq<nat>)
    requires Sorted(s)
    ensures Sorted(r) && forall x :: x in r <==> x in s && x != k
  {
    var i := 0;
    while i < |s| && s[i] != k
      invariant 0 <= i <= |s| && forall j | 0 <= j < i :: s[j] != k
    {
      i := i + 1;
    }
    if i == |s| {
      return s;
    }
    Erased(s, i);
    return s[..i] + s[i + 1..];
  }

  /** The slot a lookup settles on: the exact one if it has free objects; otherwise one in
      (need, 2*need], the least if nothing smaller than the need is free and the greatest if something
      is; nothing only if no slot of that window is free. */
  ghost predicate Suitable(slots: seq<nat>, need: nat, r: Option<nat>) {
    if need in slots then r == Some(need)
    else
      match r
      case None => forall k | k in slots :: !(need < k <= 2 * need)
      case Some(s) =>
        && s in slots && need < s <= 2 * need
        && ((forall k | k in slots :: need < k) ==> forall k | k in slots :: s <= k)
        && ((exists k :: k in slots && k < need) ==> forall k | k in slots && k <= 2 * need :: k <= s)
  }

  /** get_suitable_bulk_page, up to the choice of the slot. */
  method FindSuitable(slots: seq<nat>, need: nat) returns (r: Option<nat>)
    requires Sorted(slots)
    ensures Suitable(slots, need, r)
  {
    if need in slots {
      return Some(need);
    }
    if slots == [] {
      return None;
    }
    var most := 2 * need;
    var last := |slots| - 1;
    if slots[last] < need {
      return None;
    }
    if slots[0] > need {
      if slots[0] > most {
        return None;
      }
      return Some(slots[0]);
    }
    assert slots[0] in slots;
    while last >= 0
      invariant -1 <= last < |slots|
      invariant forall i | last < i < |slots| :: !(need < slots[i] <= most)
    {
      if need < slots[last] <= most {
        return Some(slots[last]);
      }
      last := last - 1;
    }
    return None;
  }

  datatype SlotObjPage = SlotObjPage(objs: map<Addr, seq<Addr>>, cnt: int)

  type Hash = map<nat, SlotObjPage>

  /** Both indexes hold the same slots. */
  ghost predicate Synced(hash: Hash, ordered: seq<nat>) {
    Sorted(ordered) && forall k :: k in ordered <==> k in hash
  }

  /** The hash index holds exactly the slots with free objects, with those objects and their number. */
  ghost predicate Mirrors(hash: Hash, slabs: map<nat, Slab>) {
    && (forall k | k in hash ::
          k in slabs && hash[k] == SlotObjPage(slabs[k].free, slabs[k].cnt) && slabs[k].free != map[])
    && (forall k | k in slabs && slabs[k].free != map[] :: k in hash)
  }

  /** Bring one slot of the index up to date with its free objects. */
  function Refresh(hash: Hash, k: nat, s: Slab): (r: Hash) {
    if s.free == map[] then hash - {k} else hash[k := SlotObjPage(s.free, s.cnt)]
  }

  lemma Rewritten(hash: Hash, k: nat, x: SlotObjPage, y: SlotObjPage)
    ensures hash[k := x] - {k} == hash - {k} && hash[k := x][k := y] == hash[k := y]
  {
  }

  lemma RefreshMirrors(hash: Hash, slabs: map<nat, Slab>, k: nat, s: Slab)
    requires Mirrors(hash, slabs) && k in slabs
    ensures Mirrors(Refresh(hash, k, s), slabs[k := s])
  {
  }

  /** The rest of get_suitable_bulk_page, and the counter decrement of Get: take the first object of
      some page of the chosen slot; a page and a slot that run empty leave the indexes. The source
      reads the slot's key again after the erase; here it is a parameter. */
  method TakeEntry(hash: Hash, ordered: seq<nat>, k: nat, ghost s: Slab)
    returns (hash': Hash, ordered': seq<nat>, page: Addr, obj: Addr)
    requires Synced(hash, ordered) && k in hash && hash[k] == SlotObjPage(s.free, s.cnt)
    requires s.free != map[] && forall p | p in s.free :: s.free[p] != []
    ensures Synced(hash', ordered')
    ensures page in s.free && s.free[page] != [] && obj == s.free[page][0]
    ensures hash' == Refresh(hash, k, Take(s, page))
  {
    hash', ordered' := hash, ordered;
    var entry := hash[k];
    page :| page in entry.objs;
    obj := entry.objs[page][0];
    var rest := entry.objs[page][1..];
    var objs := if rest == [] then entry.objs - {page} else entry.objs[page := rest];
    if objs == map[] {
      ordered' := Erase(ordered', k);
      hash' := hash' - {k};
    } else {
      hash' := hash'[k := SlotObjPage(objs, entry.cnt)];
    }
    if k in hash' {
      hash' := hash'[k := hash'[k].(cnt := hash'[k].cnt - 1)];
    }
  }

  /** Cut up a new page for a slot that has nothing free, enter it into both indexes and take its first
      object. */
  method ExpandEntry(hash: Hash, ordered: seq<nat>, k: nat, sh: Shape, page: Addr, ghost s: Slab)
    returns (hash': Hash, ordered': seq<nat>, obj: Addr)
    requires Synced(hash, ordered) && k !in hash && sh.Ok() && s.free == map[]
    ensures Synced(hash', ordered') && obj == Split(sh, page)[0]
    ensures page in Refill(sh, s, Some(page)).free && Refill(sh, s, Some(page)).free[page] != []
    ensures hash' == Refresh(hash, k, Take(Refill(sh, s, Some(page)), page))
  {
    ghost var f := Refill(sh, s, Some(page));
    var objs := SplitMemPage(sh, page);
    ordered' := Insert(ordered, k);
    hash' := hash[k := SlotObjPage(map[page := objs], sh.pageBytes / sh.slotSize)];
    ghost var filled := hash';
    assert objs != [] && page in f.free && filled[k] == SlotObjPage(f.free, f.cnt);
    var p;
    hash', ordered', p, obj := TakeEntry(hash', ordered', k, f);
    assert p == page;
    assert Refresh(filled, k, Take(f, page)) == Refresh(hash, k, Take(f, page));
  }

  /** The push of a put: a slot that had nothing free enters both indexes with a zero counter first. */
  method PushEntry(hash: Hash, ordered: seq<nat>, k: nat, obj: Addr, page: Addr, ghost s: Slab)
    returns (hash': Hash, ordered': seq<nat>)
    requires Synced(hash, ordered)
    requires SlotObjPage(s.free, s.cnt) == if k in hash then hash[k] else SlotObjPage(map[], 0)
    ensures Synced(hash', ordered') && k in hash'
    ensures hash' == hash[k := SlotObjPage(PutBack(s, obj, page).free, s.cnt + 1)]
  {
    hash', ordered' := hash, ordered;
    if k !in hash' {
      hash' := hash'[k := SlotObjPage(map[page := []], 0)];
      ordered' := Insert(ordered', k);
    }
    var objs := hash'[k].objs;
    if page !in objs {
      objs := objs[page := []];
    }
    objs := objs[page := objs[page] + [obj]];
    hash' := hash'[k := SlotObjPage(objs, hash'[k].cnt + 1)];
    assert objs == PutBack(s, obj, page).free;
    assert hash' == hash[k := hash'[k]];
  }

  /** The trim of a put: over the limit, look for a page whose list has as many objects as a page is
      taken to hold, and drop it; a slot that runs empty leaves the indexes. */
  method TrimEntry(hash: Hash, ordered: seq<nat>, k: nat, resident: nat, onePageObjsCnt: nat)
    returns (hash': Hash, ordered': seq<nat>, released: Option<Addr>)
    requires Synced(hash, ordered) && k in hash
    ensures Synced(hash', ordered')
    ensures var e := hash[k];
      match released
      case None =>
        hash' == hash
        && (e.cnt >= resident + onePageObjsCnt ==> forall p | p in e.objs :: |e.objs[p]| != onePageObjsCnt)
      case Some(p) =>
        && e.cnt >= resident + onePageObjsCnt && p in e.objs && |e.objs[p]| == onePageObjsCnt
        && hash' == if e.cnt == onePageObjsCnt then hash - {k}
                    else hash[k := SlotObjPage(e.objs - {p}, e.cnt - onePageObjsCnt)]
  {
    hash', ordered', released := hash, ordered, None;
    var e := hash[k];
    if e.cnt >= resident + onePageObjsCnt {
      var rest := e.objs.Keys;
      while rest != {}
        invariant rest <= e.objs.Keys && released.None? && hash' == hash && ordered' == ordered
        invariant forall p | p in e.objs && p !in rest :: |e.objs[p]| != onePageObjsCnt
        decreases |rest|
      {
        var p :| p in rest;
        if |e.objs[p]| == onePageObjsCnt {
          released := Some(p);
          hash' := hash'[k := SlotObjPage(e.objs - {p}, e.cnt - onePageObjsCnt)];
          if hash'[k].cnt == 0 {
            hash' := hash' - {k};
            ordered' := Erase(ordered', k);
          }
          break;
        }
        rest := rest - {p};
      }
    }
  }

  /** The state after an object of a slot has been taken. */
  ghost function Taken(st: State<nat>, k: nat, page: Addr): (st': State<nat>)
    requires k in st.slabs && page in st.slabs[k].free && st.slabs[k].free[page] != []
  {
    State(st.slabs[k := Take(st.slabs[k], page)], st.heap, st.live + {Live(k, st.slabs[k].free[page][0], page)})
  }

  lemma FreeListsOk(shapes: Shapes<nat>, st: State<nat>, k: nat)
    requires PoolInv(shapes, st) && k in st.slabs
    ensures shapes[k].Ok() && forall p | p in st.slabs[k].free :: st.slabs[k].free[p] != []
  {
    assert Inv(shapes[k], k, st.slabs[k], st.live);
  }

  lemma TakenKeeps(shapes: Shapes<nat>, st: State<nat>, hash: Hash, k: nat, page: Addr)
    requires PoolInv(shapes, st) && k in st.slabs && shapes[k].Ok() && Mirrors(hash, st.slabs)
    requires page in st.slabs[k].free && st.slabs[k].free[page] != []
    ensures PoolInv(shapes, Taken(st, k, page))
    ensures Mirrors(Refresh(hash, k, Taken(st, k, page).slabs[k]), Taken(st, k, page).slabs)
    ensures GetStep(shapes, st, k, None, Taken(st, k, page), Some(Live(k, st.slabs[k].free[page][0], page)))
  {
    GetKeeps(shapes, st, k, None, Taken(st, k, page), Some(Live(k, st.slabs[k].free[page][0], page)));
    RefreshMirrors(hash, st.slabs, k, Take(st.slabs[k], page));
  }

  lemma ZeroTotal(m: map<Addr, seq<Addr>>)
    requires forall p | p in m :: m[p] != []
    ensures Total(m) == 0 <==> m == map[]
  {
    if m != map[] {
      var p :| p in m;
      TotalMinus(m, p);
    }
  }

  /** The state after an object has been pushed and the slot possibly trimmed. */
  ghost function Returned(st: State<nat>, l: Live<nat>, released: Option<Addr>, s: Slab): (st': State<nat>) {
    State(st.slabs[l.key := s], if released.Some? then st.heap - {released.value} else st.heap, st.live - {l})
  }

  /** After a put that does not drop, the counter is zero exactly when nothing is free. */
  lemma EmptyByCount(sh: Shape, key: nat, s: Slab, live: set<Live<nat>>, addr: Addr, page: Addr,
                     released: Option<Addr>, s': Slab)
    requires Inv(sh, key, s, live) && Live(key, addr, page) in live && !sh.policy.Drops?
    requires Trim(sh, PutBack(s, addr, page), page, released, s')
    ensures s'.cnt == 0 <==> s'.free == map[]
  {
    var s1 := PutBack(s, addr, page);
    PutShaped(sh, key, s, live, addr, page);
    if released.Some? {
      TotalMinus(s1.free, released.value);
    }
    ZeroTotal(s'.free);
  }

  /** Dropping an emptied slot from the indexes by its zero counter is dropping it when nothing is
      free. */
  lemma ReturnedMirrors(shapes: Shapes<nat>, st: State<nat>, hash: Hash, l: Live<nat>, released: Option<Addr>, s: Slab)
    requires PoolInv(shapes, st) && Mirrors(hash, st.slabs)
    requires PutStep(shapes, st, l, released, Returned(st, l, released, s)) && !shapes[l.key].policy.Drops?
    ensures Mirrors(if s.cnt == 0 then hash - {l.key} else hash[l.key := SlotObjPage(s.free, s.cnt)],
                    Returned(st, l, released, s).slabs)
  {
    var k := l.key;
    assert Inv(shapes[k], k, st.slabs[k], st.live);
    assert l == Live(k, l.addr, l.page);
    EmptyByCount(shapes[k], k, st.slabs[k], st.live, l.addr, l.page, released, s);
    RefreshMirrors(hash, st.slabs, k, s);
  }

  /** Dropping an object leaves the free lists of its slot as they were. */
  lemma DropKeepsFree(sh: Shape, key: nat, s: Slab, live: set<Live<nat>>, addr: Addr, page: Addr)
    requires Inv(sh, key, s, live) && Live(key, addr, page) in live && sh.policy.Drops?
    ensures Release(sh, PutBack(s, addr, page), page).free == s.free
    ensures Release(sh, PutBack(s, addr, page), page).cnt == s.cnt
  {
    DivUnique(sh.pageBytes, sh.slotSize, 1, 0);
    PutShaped(sh, key, s, live, addr, page);
    ListFits(sh, key, PutBack(s, addr, page), live - {Live(key, addr, page)}, page);
    assert page !in s.free;
  }

  /** The state after a new page has been cut up and its first object taken. */
  ghost function Expanded(shapes: Shapes<nat>, st: State<nat>, k: nat, page: Addr): (st': State<nat>)
    requires k in st.slabs && k in shapes && shapes[k].Ok() && st.slabs[k].free == map[]
  {
    var f := Refill(shapes[k], st.slabs[k], Some(page));
    State(st.slabs[k := Take(f, page)], st.heap[page := k], st.live + {Live(k, f.free[page][0], page)})
  }

  lemma ExpandedKeeps(shapes: Shapes<nat>, st: State<nat>, hash: Hash, k: nat, page: Addr)
    requires PoolInv(shapes, st) && k in shapes && shapes[k].Ok() && st.slabs[k].free == map[]
    requires AllocOk(shapes, st.heap, k, Some(page)) && Mirrors(hash, st.slabs)
    ensures Mirrors(Refresh(hash, k, Expanded(shapes, st, k, page).slabs[k]), Expanded(shapes, st, k, page).slabs)
    ensures PoolInv(shapes, Expanded(shapes, st, k, page))
    ensures GetStep(shapes, st, k, Some(page), Expanded(shapes, st, k, page),
                    Some(Live(k, Split(shapes[k], page)[0], page)))
  {
    GetKeeps(shapes, st, k, Some(page), Expanded(shapes, st, k, page), Some(Live(k, Split(shapes[k], page)[0], page)));
    RefreshMirrors(hash, st.slabs, k, Expanded(shapes, st, k, page).slabs[k]);
  }

  /** What the search of a put found, seen as the slot's trim. Where a page is taken to hold more
      objects than it does, nothing is ever found. */
  lemma TrimFound(sh: Shape, key: nat, s: Slab, live: set<Live<nat>>, addr: Addr, page: Addr,
                  n: nat, released: Option<Addr>)
    requires Inv(sh, key, s, live) && Live(key, addr, page) in live
    requires if sh.policy.Trims? then sh.PerPage() == n else sh.policy.Keeps? && sh.PerPage() < n
    requires var s1 := PutBack(s, addr, page);
      match released
      case None => s1.cnt >= sh.resident + n ==> forall p | p in s1.free :: |s1.free[p]| != n
      case Some(p) => s1.cnt >= sh.resident + n && p in s1.free && |s1.free[p]| == n
    ensures var s1 := PutBack(s, addr, page);
      Trim(sh, s1, page, released, if released.Some? then Release(sh, s1, released.value) else s1)
  {
    if released.Some? {
      PutShaped(sh, key, s, live, addr, page);
      ListFits(sh, key, PutBack(s, addr, page), live - {Live(key, addr, page)}, released.value);
    }
  }

  /** The slot after the put. */
  ghost function Trimmed(sh: Shape, s: Slab, l: Live<nat>, released: Option<Addr>): (s': Slab)
    requires sh.Ok()
  {
    var s1 := PutBack(s, l.addr, l.page);
    if released.Some? then Release(sh, s1, released.value) else s1
  }

  /** Push and trim together. */
  method ReserveEntry(hash: Hash, ordered: seq<nat>, l: Live<nat>, resident: nat, n: nat,
                      ghost sh: Shape, ghost s: Slab)
    returns (hash': Hash, ordered': seq<nat>, released: Option<Addr>)
    requires Synced(hash, ordered) && sh.Ok() && s.cnt >= 0
    requires SlotObjPage(s.free, s.cnt) == if l.key in hash then hash[l.key] else SlotObjPage(map[], 0)
    ensures Synced(hash', ordered')
    ensures var s1 := PutBack(s, l.addr, l.page);
      match released
      case None => s1.cnt >= resident + n ==> forall p | p in s1.free :: |s1.free[p]| != n
      case Some(p) => s1.cnt >= resident + n && p in s1.free && |s1.free[p]| == n
    ensures (released.Some? ==> sh.PerPage() == n) ==>
      var t := Trimmed(sh, s, l, released);
      hash' == if t.cnt == 0 then hash - {l.key} else hash[l.key := SlotObjPage(t.free, t.cnt)]
  {
    hide Synced;
    hash', ordered' := PushEntry(hash, ordered, l.key, l.addr, l.page, s);
    ghost var pushed := hash'[l.key];
    hash', ordered', released := TrimEntry(hash', ordered', l.key, resident, n);
    ghost var t := Trimmed(sh, s, l, released);
    Rewritten(hash, l.key, pushed, SlotObjPage(t.free, t.cnt));
  }

  lemma ReserveKeeps(shapes: Shapes<nat>, st: State<nat>, hash: Hash, l: Live<nat>, n: nat, released: Option<Addr>)
    requires PoolInv(shapes, st) && Mirrors(hash, st.slabs)
    requires l in st.live && l.key in shapes && shapes[l.key].Ok()
    requires if shapes[l.key].policy.Trims? then shapes[l.key].PerPage() == n
             else shapes[l.key].policy.Keeps? && shapes[l.key].PerPage() < n
    requires var s1 := PutBack(st.slabs[l.key], l.addr, l.page);
      match released
      case None => s1.cnt >= shapes[l.key].resident + n ==> forall p | p in s1.free :: |s1.free[p]| != n
      case Some(p) => s1.cnt >= shapes[l.key].resident + n && p in s1.free && |s1.free[p]| == n
    ensures var s := Trimmed(shapes[l.key], st.slabs[l.key], l, released);
      var st' := Returned(st, l, released, s);
      && PoolInv(shapes, st') && PutStep(shapes, st, l, released, st')
      && (released.Some? ==> shapes[l.key].PerPage() == n)
      && Mirrors(if s.cnt == 0 then hash - {l.key} else hash[l.key := SlotObjPage(s.free, s.cnt)], st'.slabs)
  {
    var k := l.key;
    assert Inv(shapes[k], k, st.slabs[k], st.live);
    assert l == Live(k, l.addr, l.page);
    TrimFound(shapes[k], k, st.slabs[k], st.live, l.addr, l.page, n, released);
    var s := Trimmed(shapes[k], st.slabs[k], l, released);
    PutKeeps(shapes, st, l, released, Returned(st, l, released, s));
    ReturnedMirrors(shapes, st, hash, l, released, s);
  }

  lemma SlotInv(shapes: Shapes<nat>, st: State<nat>, k: nat)
    requires PoolInv(shapes, st) && k in shapes
    ensures k in st.slabs && Inv(shapes[k], k, st.slabs[k], st.live)
  {
  }

  /** What the push and the trim found, said of the objects that were free. */
  lemma EntryGivesBack(sh: Shape, s: Slab, live: set<Live<nat>>, l: Live<nat>, resident: nat, n: nat,
                       released: Option<Addr>)
    requires Inv(sh, l.key, s, live) && l in live && n > 0
    requires var s1 := PutBack(s, l.addr, l.page);
      match released
      case None => s1.cnt >= resident + n ==> forall p | p in s1.free :: |s1.free[p]| != n
      case Some(p) => s1.cnt >= resident + n && p in s1.free && |s1.free[p]| == n
    ensures GivesBack(s.free, l.page, resident, n, released)
  {
    assert l == Live(l.key, l.addr, l.page) && l.page in s.pages;
    var s1 := PutBack(s, l.addr, l.page);
    forall p: Addr
      ensures p in s1.free ==> |s1.free[p]| == Pushed(s.free, l.page, p)
      ensures p !in s1.free ==> Pushed(s.free, l.page, p) == 0
    {
    }
  }

  /** A slot outside the indexes with live objects has a zero counter. */
  lemma Unlisted(shapes: Shapes<nat>, st: State<nat>, hash: Hash, l: Live<nat>)
    requires PoolInv(shapes, st) && Mirrors(hash, st.slabs) && l in st.live
    ensures l.key in st.slabs && shapes[l.key].Ok() && st.slabs[l.key].cnt >= 0
    ensures SlotObjPage(st.slabs[l.key].free, st.slabs[l.key].cnt)
            == if l.key in hash then hash[l.key] else SlotObjPage(map[], 0)
  {
    var k := l.key;
    assert Inv(shapes[k], k, st.slabs[k], st.live);
    assert l == Live(k, l.addr, l.page);
    ZeroTotal(st.slabs[k].free);
  }

  lemma DropKeeps(shapes: Shapes<nat>, st: State<nat>, hash: Hash, l: Live<nat>)
    requires PoolInv(shapes, st) && Mirrors(hash, st.slabs)
    requires l in st.live && l.key in shapes && shapes[l.key].Ok() && shapes[l.key].policy.Drops?
    ensures var s := Release(shapes[l.key], PutBack(st.slabs[l.key], l.addr, l.page), l.page);
      var st' := Returned(st, l, Some(l.page), s);
      PoolInv(shapes, st') && Mirrors(hash, st'.slabs) && PutStep(shapes, st, l, Some(l.page), st')
  {
    var k := l.key;
    assert Inv(shapes[k], k, st.slabs[k], st.live);
    assert l == Live(k, l.addr, l.page);
    var s := Release(shapes[k], PutBack(st.slabs[k], l.addr, l.page), l.page);
    PutKeeps(shapes, st, l, Some(l.page), Returned(st, l, Some(l.page), s));
    DropKeepsFree(shapes[k], k, st.slabs[k], st.live, l.addr, l.page);
  }

  /** With something free the system is not asked. */
  lemma AllocUnused(shapes: Shapes<nat>, st: State<nat>, k: nat, alloc: Option<Addr>, st': State<nat>, l: Live<nat>)
    requires k in shapes && shapes[k].Ok() && k in st.slabs && st.slabs[k].free != map[]
    requires GetStep(shapes, st, k, None, st', Some(l))
    ensures l.key == k && GetStep(shapes, st, k, alloc, st', Some(l))
  {
  }

  /** The page set of a slot, if it has one, and what happened to it. */
  function SetOf(pages: map<nat, set<Addr>>, k: nat): (r: Option<set<Addr>>) {
    if k in pages then Some(pages[k]) else None
  }

  ghost function HistoryOf(history: map<nat, seq<PageEvent>>, k: nat): (h: seq<PageEvent>) {
    if k in history then history[k] else []
  }

  /** The page sets of the slots above the reserve limit are what their histories make of them. */
  ghost predicate Recorded(shapes: Shapes<nat>, pages: map<nat, set<Addr>>, history: map<nat, seq<PageEvent>>) {
    forall k | k in shapes && shapes[k].policy.Drops? :: SetOf(pages, k) == Record(HistoryOf(history, k))
  }

  /** An expansion is tried exactly when the lookup finds no slot. */
  ghost predicate GrownBy(before: map<nat, seq<PageEvent>>, after: map<nat, seq<PageEvent>>, slots: seq<nat>,
                          need: nat, alloc: Option<Addr>) {
    after == if Suitable(slots, need, None) then before[need := HistoryOf(before, need) + [Grown(alloc)]] else before
  }

  lemma RecordedMore(shapes: Shapes<nat>, pages: map<nat, set<Addr>>, history: map<nat, seq<PageEvent>>,
                     k: nat, ev: PageEvent, pages': map<nat, set<Addr>>)
    requires Recorded(shapes, pages, history)
    requires forall j | j != k :: SetOf(pages', j) == SetOf(pages, j)
    requires SetOf(pages', k) == After(SetOf(pages, k), ev)
    ensures Recorded(shapes, pages', history[k := HistoryOf(history, k) + [ev]])
  {
    RecordMore(HistoryOf(history, k), ev);
  }

  /** The page sets of other slots do not matter. */
  lemma RecordedBelow(shapes: Shapes<nat>, pages: map<nat, set<Addr>>, history: map<nat, seq<PageEvent>>,
                      k: nat, owned: set<Addr>)
    requires Recorded(shapes, pages, history) && (k in shapes ==> !shapes[k].policy.Drops?)
    ensures Recorded(shapes, pages[k := owned], history)
  {
  }

  /** The bulk level of the pool. */
  class BulkPool {
    const pageExp: nat
    const resident: nat
    ghost const shapes: Shapes<nat>
    /** The page sets by slot, the hash index and the slots of the ordered index. */
    var pages: map<nat, set<Addr>>
    var hash: Hash
    var ordered: seq<nat>
    /** Every slot with the pages it really owns, the pages held and the objects handed out. */
    ghost var st: State<nat>
    /** What happened to the page set of each slot. */
    ghost var history: map<nat, seq<PageEvent>>

    ghost predicate Configured() {
      1 <= pageExp <= 31 && shapes == BulkShapes(pageExp, resident)
    }

    ghost predicate Valid()
      reads this
    {
      && PoolInv(shapes, st)
      && Synced(hash, ordered)
      && Mirrors(hash, st.slabs)
      && Recorded(shapes, pages, history)
    }

    constructor (pageExp: nat, resident: nat)
      requires 1 <= pageExp <= 31
      ensures Configured() && Valid() && st.live == {} && this.pageExp == pageExp && this.resident == resident
      ensures hash == map[] && history == map[] && st.heap == map[]
    {
      this.pageExp, this.resident := pageExp, resident;
      shapes := BulkShapes(pageExp, resident);
      pages, hash, ordered, history := map[], map[], [], map[];
      st := Initial(map k | k in BulkShapes(pageExp, resident) :: 0);
      new;
      assert ShapesOk(shapes) by {
        forall k | k in shapes ensures shapes[k].Ok() { BulkShapeOk(Pow2(pageExp), resident, k); }
      }
      InitialInv(shapes, map k | k in shapes :: 0);
    }

    /** Take an object of a slot that has one. */
    method TakeFrom(k: nat) returns (l: Live<nat>)
      requires Valid() && k in hash
      modifies this`hash, this`ordered, this`st
      ensures Valid() && k in shapes && shapes[k].Ok() && l.key == k
      ensures GetStep(shapes, old(st), k, None, st, Some(l))
    {
      hide Slabs.Take, Slabs.Inv, Pool.SlabsOk, Pool.Owned, Pool.HeapOk, Pool.GetStep, Synced, Recorded;
      FreeListsOk(shapes, st, k);
      ghost var before := hash;
      var page, obj;
      hash, ordered, page, obj := TakeEntry(hash, ordered, k, st.slabs[k]);
      l := Live(k, obj, page);
      TakenKeeps(shapes, st, before, k, page);
      st := Taken(st, k, page);
    }

    /** Allocate and cut up a page for a slot with nothing free, and take its first object. The page
        set of the slot is overwritten, whatever it held. */
    method Expand(k: nat, sh: Shape, page: Addr) returns (l: Live<nat>)
      requires Valid() && k in shapes && shapes[k] == sh && sh.Ok() && k !in hash
      requires AllocOk(shapes, st.heap, k, Some(page))
      modifies this
      ensures Valid() && pages == old(pages)[k := {page}]
      ensures history == old(history)[k := HistoryOf(old(history), k) + [Grown(Some(page))]]
      ensures l.key == k && GetStep(shapes, old(st), k, Some(page), st, Some(l))
    {
      hide Slabs.Take, Slabs.Inv, Pool.SlabsOk, Pool.Owned, Pool.HeapOk, Pool.GetStep, Synced, Recorded;
      ghost var before := hash;
      pages := pages[k := {}];
      var recorded := pages[k] + {page};
      assert recorded == {page};
      RecordedMore(shapes, old(pages), history, k, Grown(Some(page)), old(pages)[k := {page}]);
      pages := pages[k := recorded];
      assert pages == old(pages)[k := {page}];
      history := history[k := HistoryOf(history, k) + [Grown(Some(page))]];
      var obj;
      hash, ordered, obj := ExpandEntry(hash, ordered, k, sh, page, st.slabs[k]);
      l := Live(k, obj, page);
      ExpandedKeeps(shapes, st, before, k, page);
      st := Expanded(shapes, st, k, page);
    }

    /** The slot a size rounds to, and the page that would be allocated for it. */
    method Classify(size: nat) returns (need: nat, sh: Shape)
      requires Configured() && 0 < size <= U32 - Pow2(pageExp)
      ensures need == SlotIdx(Roundup(size, pageExp), Pow2(pageExp)) && need in shapes
      ensures sh == shapes[need] && sh.Ok() && sh.slotSize >= size
    {
      NeedInRange(pageExp, size);
      var needPageSize := Roundup(size, pageExp);
      need := SlotIdx(needPageSize, Pow2(pageExp));
      BulkShapeOk(Pow2(pageExp), resident, need);
      var expandPageSize := needPageSize;
      if needPageSize < RESERVE_MAX_SIZE {
        ExpandExact(Pow2(pageExp), need);
        expandPageSize := ExpandPageSize(needPageSize, EXPAND_BULK_OBJ_CNT_FACTOR, Pow2(pageExp));
      }
      sh := Shape(needPageSize, expandPageSize, resident,
                  if needPageSize < RESERVE_MAX_SIZE then Trims
                  else if needPageSize == RESERVE_MAX_SIZE then Keeps else Drops);
    }

    /** Get from the slot a lookup settles on. */
    method GetFrom(need: nat, sh: Shape, alloc: Option<Addr>) returns (r: Option<Live<nat>>)
      requires Valid() && need > 0 && need in shapes && shapes[need] == sh && sh.Ok()
      requires AllocOk(shapes, st.heap, need, alloc)
      modifies this
      ensures Valid()
      ensures
        match r
        case None => Suitable(old(ordered), need, None) && alloc.None? && st == old(st)
        case Some(l) =>
          && l.key in shapes && shapes[l.key].Ok() && need <= l.key <= 2 * need
          && GetStep(shapes, old(st), l.key, alloc, st, r)
          && (Suitable(old(ordered), need, Some(l.key)) || (Suitable(old(ordered), need, None) && l.key == need))
      ensures GrownBy(old(history), history, old(ordered), need, alloc)
    {
      hide Pool.PoolInv, Pool.GetStep, Recorded, Slabs.Take, Slabs.Inv;
      var found := FindSuitable(ordered, need);
      r := None;
      if found.Some? {
        assert found.value in hash;
        ghost var before := st;
        var l := TakeFrom(found.value);
        AllocUnused(shapes, before, found.value, alloc, st, l);
        r := Some(l);
      } else if alloc.Some? {
        var l := Expand(need, sh, alloc.value);
        r := Some(l);
      } else {
        RecordedMore(shapes, pages, history, need, Grown(None), pages[need := {}]);
        pages := pages[need := {}];
        history := history[need := HistoryOf(history, need) + [Grown(None)]];
      }
    }

    /** Get for sizes above the bulk threshold: the exact slot or one in the window if it has free
        objects, otherwise a new page for the exact slot. `alloc` is what posix_memalign would answer. A
        size that rounds past 2^32 is looked for in slot 0, which is never there; the code then fails if
        nothing can be allocated, and otherwise divides by its object size of zero: `defined` says which. */
    method Get(size: nat, alloc: Option<Addr>) returns (defined: bool, r: Option<Live<nat>>)
      requires Configured() && Valid() && 0 < size < U32
      requires AllocOk(shapes, st.heap, SlotIdx(Roundup(size, pageExp), Pow2(pageExp)), alloc)
      modifies this
      ensures Valid()
      ensures defined <==> size <= U32 - Pow2(pageExp) || alloc.None?
      ensures size > U32 - Pow2(pageExp) ==>
        && r.None? && st == old(st) && hash == old(hash) && ordered == old(ordered) && history == old(history)
        && pages == old(pages)[0 := {}]
      ensures size <= U32 - Pow2(pageExp) ==>
        var need := SlotIdx(Roundup(size, pageExp), Pow2(pageExp));
        && need in shapes && shapes[need].Ok() && shapes[need].slotSize >= size
        && GrownBy(old(history), history, old(ordered), need, alloc)
        && match r
           case None => Suitable(old(ordered), need, None) && alloc.None? && st == old(st)
           case Some(l) =>
             && l.key in shapes && shapes[l.key].Ok() && need <= l.key <= 2 * need
             && GetStep(shapes, old(st), l.key, alloc, st, r)
             && (Suitable(old(ordered), need, Some(l.key)) || (Suitable(old(ordered), need, None) && l.key == need))
    {
      defined := true;
      if size <= U32 - Pow2(pageExp) {
        var need, sh := Classify(size);
        r := GetFrom(need, sh, alloc);
      } else {
        RoundupLeast(size, pageExp);
        var needPageSize := Roundup(size, pageExp);
        assert needPageSize == 0;
        RecordedBelow(shapes, pages, history, 0, {});
        pages := pages[0 := {}];
        defined, r := alloc.None?, None;
      }
    }

    /** The object size of a slot, and the objects per page a put takes it to have. */
    method PutSizes(k: nat) returns (slotSize: nat, onePageObjsCnt: nat)
      requires Configured() && k in shapes
      ensures shapes[k].Ok() && slotSize == shapes[k].slotSize && shapes[k].resident == resident
      ensures onePageObjsCnt == EXPAND_BULK_OBJ_CNT_FACTOR || slotSize > RESERVE_MAX_SIZE
      ensures slotSize > RESERVE_MAX_SIZE <==> shapes[k].policy.Drops?
      ensures slotSize == RESERVE_MAX_SIZE <==> shapes[k].policy.Keeps?
      ensures shapes[k].policy.Trims? ==> shapes[k].PerPage() == EXPAND_BULK_OBJ_CNT_FACTOR
      ensures !shapes[k].policy.Trims? ==> shapes[k].PerPage() == 1
    {
      BulkShapeOk(Pow2(pageExp), resident, k);
      slotSize := k * Pow2(pageExp);
      onePageObjsCnt := 0;
      if slotSize <= RESERVE_MAX_SIZE {
        ExpandExact(Pow2(pageExp), k);
        DivUnique(slotSize * EXPAND_BULK_OBJ_CNT_FACTOR, slotSize, EXPAND_BULK_OBJ_CNT_FACTOR, 0);
        onePageObjsCnt := ExpandPageSize(slotSize, EXPAND_BULK_OBJ_CNT_FACTOR, Pow2(pageExp)) / slotSize;
      }
    }

    /** Put of an object above the reserve limit: forget its page in the slot's page set and give it
        back. */
    method Drop(l: Live<nat>)
      requires Valid() && l in st.live && l.key in shapes && shapes[l.key].Ok() && shapes[l.key].policy.Drops?
      requires l.key in pages
      modifies this
      ensures Valid() && PutStep(shapes, old(st), l, Some(l.page), st)
      ensures hash == old(hash) && ordered == old(ordered)
      ensures pages == if old(pages)[l.key] <= {l.page} then old(pages) - {l.key}
                       else old(pages)[l.key := old(pages)[l.key] - {l.page}]
      ensures history == old(history)[l.key := HistoryOf(old(history), l.key) + [Dropped(l.page)]]
    {
      hide Recorded, Pool.PoolInv, Pool.PutStep, Mirrors, Synced, Slabs.Inv;
      pages := pages[l.key := pages[l.key] - {l.page}];
      if pages[l.key] == {} {
        pages := pages - {l.key};
      }
      assert SetOf(pages, l.key) == After(SetOf(old(pages), l.key), Dropped(l.page));
      RecordedMore(shapes, old(pages), history, l.key, Dropped(l.page), pages);
      history := history[l.key := HistoryOf(history, l.key) + [Dropped(l.page)]];
      DropKeeps(shapes, st, hash, l);
      st := Returned(st, l, Some(l.page), Release(shapes[l.key], PutBack(st.slabs[l.key], l.addr, l.page), l.page));
    }

    /** Put of an object within the reserve limit. */
    method Reserve(l: Live<nat>, onePageObjsCnt: nat) returns (released: Option<Addr>)
      requires Valid() && l in st.live && l.key in shapes && shapes[l.key].Ok() && shapes[l.key].resident == resident
      requires if shapes[l.key].policy.Trims? then shapes[l.key].PerPage() == onePageObjsCnt
               else shapes[l.key].policy.Keeps? && shapes[l.key].PerPage() < onePageObjsCnt
      modifies this
      ensures Valid() && PutStep(shapes, old(st), l, released, st) && history == old(history)
      ensures l.key in old(st).slabs
      ensures GivesBack(old(st).slabs[l.key].free, l.page, resident, onePageObjsCnt, released)
      ensures pages == if released.None? then old(pages)
                       else old(pages)[l.key :=
                              (if l.key in old(pages) then old(pages)[l.key] else {}) - {released.value}]
    {
      hide Slabs.PutBack, Slabs.Inv, Pool.PutStep, Pool.PoolInv, Synced, Mirrors, Recorded, Trimmed, Returned;
      hide Pool.GivesBack;
      ghost var before := hash;
      Unlisted(shapes, st, hash, l);
      hash, ordered, released :=
        ReserveEntry(hash, ordered, l, resident, onePageObjsCnt, shapes[l.key], st.slabs[l.key]);
      if released.Some? {
        var recorded := if l.key in pages then pages[l.key] else {};
        RecordedBelow(shapes, pages, history, l.key, recorded - {released.value});
        pages := pages[l.key := recorded - {released.value}];
      }
      ReserveKeeps(shapes, st, before, l, onePageObjsCnt, released);
      SlotInv(shapes, st, l.key);
      EntryGivesBack(shapes[l.key], st.slabs[l.key], st.live, l, resident, onePageObjsCnt, released);
      st := Returned(st, l, released, Trimmed(shapes[l.key], st.slabs[l.key], l, released));
    }

    /** Put. Above the reserve limit the source looks its slot up in the page sets without checking that
        it is there; `defined` says whether it was. It is exactly when the newest object allocated for the
        slot is still out, because every expansion overwrites the set. Above 1 MiB the object's page goes back
        at once; below, a page exactly when the objects free are at least so many as may stay resident and four
        more, and some page has four of them free. */
    method Put(l: Live<nat>) returns (defined: bool, released: Option<Addr>)
      requires Configured() && Valid() && l in st.live
      modifies this
      ensures Valid() && l.key in shapes
      ensures defined <==>
        (shapes[l.key].slotSize > RESERVE_MAX_SIZE ==> NewestOut(HistoryOf(old(history), l.key)))
      ensures history == if defined && shapes[l.key].slotSize > RESERVE_MAX_SIZE
                         then old(history)[l.key := HistoryOf(old(history), l.key) + [Dropped(l.page)]]
                         else old(history)
      ensures defined ==> PutStep(shapes, old(st), l, released, st)
      ensures l.key in old(st).slabs
      ensures defined ==>
        if l.key * Pow2(pageExp) > 1048576 then released == Some(l.page)
        else GivesBack(old(st).slabs[l.key].free, l.page, resident, 4, released)
      ensures !defined ==> st == old(st) && hash == old(hash) && ordered == old(ordered) && pages == old(pages)
    {
      var slotSize, onePageObjsCnt := PutSizes(l.key);
      defined, released := true, None;
      if slotSize > RESERVE_MAX_SIZE {
        RecordDefined(HistoryOf(history, l.key));
        assert SetOf(pages, l.key) == Record(HistoryOf(history, l.key));
        if l.key in pages {
          Drop(l);
          released := Some(l.page);
        } else {
          defined := false;
        }
      } else {
        released := Reserve(l, onePageObjsCnt);
      }
    }
  }
}
