/** Where the bulk level does not keep what it is meant to keep, with the exact conditions. */
module BulkLimits {
  import opened Options
  import opened Arith
  import opened Rounding
  import opened Slabs
  import opened Pool
  import opened BulkPool
  import opened PageSets

  // ----- the slot exactly at the reserve limit

  /** The residency every slot should have: over the limit only while no page is entirely free. */
  ghost predicate Bounded(sh: Shape, s: Slab)
    requires sh.Ok()
  {
    s.pages != {} && OverLimit(sh, s) ==> forall p | p in s.free :: !Full(sh, s, p)
  }

  // ----- a run that fills the slot at the limit

  /** Pages for it, one behind the other. */
  function Page(j: nat): (p: Addr) {
    RESERVE_MAX_SIZE * (j + 1)
  }

  function Obj(k: nat, j: nat): (l: Live<nat>) {
    Live(k, Page(j), Page(j))
  }

  ghost predicate AtLimit(shapes: Shapes<nat>, k: nat) {
    && k in shapes && shapes[k].policy == Keeps
    && shapes[k].slotSize == RESERVE_MAX_SIZE && shapes[k].pageBytes == RESERVE_MAX_SIZE
  }

  lemma LimitSplit(sh: Shape, page: Addr)
    requires sh.policy == Keeps && sh.slotSize == RESERVE_MAX_SIZE && sh.pageBytes == RESERVE_MAX_SIZE
    ensures sh.Ok() && sh.PerPage() == 1 && Split(sh, page) == [page]
  {
    assert Split(sh, page)[0] == ObjAddr(sh, page, 0);
  }

  /** The state after m objects were got, each with a page of its own. */
  ghost function Gots(cnts: map<nat, int>, k: nat, m: nat): (st: State<nat>)
    requires k in cnts
    ensures k in st.slabs
  {
    if m == 0 then Initial(cnts)
    else
      var st := Gots(cnts, k, m - 1);
      State(st.slabs[k := Slab(st.slabs[k].pages + {Page(m - 1)}, map[], 0)], st.heap[Page(m - 1) := k],
            st.live + {Obj(k, m - 1)})
  }

  /** And after m of n objects were put. */
  ghost function Puts(cnts: map<nat, int>, k: nat, n: nat, m: nat): (st: State<nat>)
    requires k in cnts
    ensures k in st.slabs
  {
    if m == 0 then Gots(cnts, k, n)
    else
      var st := Puts(cnts, k, n, m - 1);
      State(st.slabs[k := PutBack(st.slabs[k], Page(m - 1), Page(m - 1))], st.heap, st.live - {Obj(k, m - 1)})
  }

  lemma {:induction false} GotsFacts(cnts: map<nat, int>, k: nat, m: nat)
    requires k in cnts
    ensures var st := Gots(cnts, k, m);
      && st.slabs[k].free == map[] && (m > 0 ==> st.slabs[k].cnt == 0 && Page(0) in st.slabs[k].pages)
      && (forall p | p in st.heap :: st.heap[p] == k && p + RESERVE_MAX_SIZE <= Page(m))
      && (forall j | 0 <= j < m :: Obj(k, j) in st.live)
  {
    if m > 0 {
      GotsFacts(cnts, k, m - 1);
    }
  }

  lemma {:induction false} PutsFacts(cnts: map<nat, int>, k: nat, n: nat, m: nat)
    requires k in cnts && 0 < n && m <= n
    ensures var st := Puts(cnts, k, n, m);
      && st.slabs[k].cnt == m && Page(0) in st.slabs[k].pages
      && (m > 0 ==> Page(0) in st.slabs[k].free && st.slabs[k].free[Page(0)] == [Page(0)])
      && (m == 0 ==> st.slabs[k].free == map[])
      && (forall j | m <= j < n :: Obj(k, j) in st.live)
  {
    if m == 0 {
      GotsFacts(cnts, k, n);
    } else {
      PutsFacts(cnts, k, n, m - 1);
    }
  }

  lemma GetNext(shapes: Shapes<nat>, cnts: map<nat, int>, k: nat, m: nat)
    requires AtLimit(shapes, k) && k in cnts
    ensures Step(shapes, Gots(cnts, k, m), Got(k, Some(Page(m)), Some(Obj(k, m))), Gots(cnts, k, m + 1))
  {
    var st := Gots(cnts, k, m);
    GotsFacts(cnts, k, m);
    LimitSplit(shapes[k], Page(m));
    var f := Refill(shapes[k], st.slabs[k], Some(Page(m)));
    assert f.free[Page(m)] == [Page(m)];
    assert Take(f, Page(m)) == Gots(cnts, k, m + 1).slabs[k];
  }

  lemma PutNext(shapes: Shapes<nat>, cnts: map<nat, int>, k: nat, n: nat, m: nat)
    requires AtLimit(shapes, k) && k in cnts && m < n
    ensures Step(shapes, Puts(cnts, k, n, m), Put(Obj(k, m), None), Puts(cnts, k, n, m + 1))
  {
    LimitSplit(shapes[k], Page(m));
    PutsFacts(cnts, k, n, m);
  }

  /** As many objects as the limit allows and one page more, got and then put: every page is entirely free
      and the counter over the limit, yet no page was given back. */
  lemma LimitSlotOverstays(shapes: Shapes<nat>, cnts: map<nat, int>, k: nat)
    returns (states: seq<State<nat>>, events: seq<Event<nat>>)
    requires ShapesOk(shapes) && cnts.Keys == shapes.Keys && AtLimit(shapes, k)
    ensures Run(shapes, cnts, states, events)
    ensures var st := states[|events|]; k in st.slabs && shapes[k].Ok() && !Bounded(shapes[k], st.slabs[k])
  {
    hide Gots, Puts, Bounded, Pool.Step, Initial, ShapesOk, Page, Obj;
    var n := shapes[k].resident + 1;
    Overstayed(shapes, cnts, k, n);
    states := seq(2 * n + 1, i requires 0 <= i <= 2 * n =>
      if i <= n then Gots(cnts, k, i) else Puts(cnts, k, n, i - n));
    events := seq(2 * n, i requires 0 <= i < 2 * n =>
      if i < n then Got(k, Some(Page(i)), Some(Obj(k, i))) else Put(Obj(k, i - n), None));
    forall i | 0 <= i < |events|
      ensures Step(shapes, states[i], events[i], states[i + 1])
    {
      if i < n {
        GetNext(shapes, cnts, k, i);
      } else {
        PutNext(shapes, cnts, k, n, i - n);
      }
    }
  }

  lemma Overstayed(shapes: Shapes<nat>, cnts: map<nat, int>, k: nat, n: nat)
    requires AtLimit(shapes, k) && k in cnts && n == shapes[k].resident + 1
    ensures Gots(cnts, k, 0) == Initial(cnts) && Puts(cnts, k, n, 0) == Gots(cnts, k, n)
    ensures shapes[k].Ok() && !Bounded(shapes[k], Puts(cnts, k, n, n).slabs[k])
  {
    PutsFacts(cnts, k, n, n);
    LimitSplit(shapes[k], Page(0));
    assert Full(shapes[k], Puts(cnts, k, n, n).slabs[k], Page(0));
  }

  // ----- every slot of every configuration

  ghost predicate AlwaysBounded(shapes: Shapes<nat>, k: nat)
    requires k in shapes && shapes[k].Ok()
  {
    forall cnts: map<nat, int>, states: seq<State<nat>>, events: seq<Event<nat>>, n: nat
      {:trigger Run(shapes, cnts, states, events), states[n]} |
      Run(shapes, cnts, states, events) && n < |states| && k in states[n].slabs ::
      Bounded(shapes[k], states[n].slabs[k])
  }

  /** Whatever the page size and the resident limit, a bulk slot stays bounded in every run exactly when
      its objects are not of exactly 1 MiB. */
  lemma LimitExact(pageExp: nat, resident: nat, i: nat)
    requires 1 <= pageExp <= 31 && i in BulkShapes(pageExp, resident)
    ensures BulkShapes(pageExp, resident)[i].Ok()
    ensures AlwaysBounded(BulkShapes(pageExp, resident), i) <==> i * Pow2(pageExp) != RESERVE_MAX_SIZE
  {
    var shapes := BulkShapes(pageExp, resident);
    forall k | k in shapes
      ensures shapes[k].Ok()
    {
      BulkShapeOk(Pow2(pageExp), resident, k);
    }
    if i * Pow2(pageExp) == RESERVE_MAX_SIZE {
      var cnts := map k | k in shapes :: 0;
      var states, events := LimitSlotOverstays(shapes, cnts, i);
      assert Run(shapes, cnts, states, events);
    } else {
      forall cnts: map<nat, int>, states: seq<State<nat>>, events: seq<Event<nat>>, n: nat
        {:trigger Run(shapes, cnts, states, events), states[n]} |
        Run(shapes, cnts, states, events) && n < |states| && i in states[n].slabs
        ensures Bounded(shapes[i], states[n].slabs[i])
      {
        RunBounded(shapes, cnts, states, events, n, i);
      }
    }
  }

  /** In every run a slot that trims or drops stays bounded. */
  lemma RunBounded(shapes: Shapes<nat>, cnts: map<nat, int>, states: seq<State<nat>>, events: seq<Event<nat>>,
                   n: nat, k: nat)
    requires Run(shapes, cnts, states, events) && n < |states| && k in shapes && !shapes[k].policy.Keeps?
    ensures shapes[k].Ok() && k in states[n].slabs && Bounded(shapes[k], states[n].slabs[k])
  {
    RunKeeps(shapes, cnts, states, events, n);
    assert Inv(shapes[k], k, states[n].slabs[k], states[n].live);
  }

  // ----- the page set of a slot above the limit

  /** A slot above the limit never has free objects, and neither has one in the window above it: a get
      for it always allocates. */
  lemma AboveLimit(pool: BulkPool, k: nat)
    requires pool.Configured() && pool.Valid() && k in pool.shapes && k * Pow2(pool.pageExp) > RESERVE_MAX_SIZE
    ensures Suitable(pool.ordered, k, None)
    ensures k in pool.st.slabs && pool.st.slabs[k].free == map[]
    ensures pool.shapes[k].slotSize == k * Pow2(pool.pageExp) == pool.shapes[k].pageBytes
  {
    forall i | i in pool.shapes && k <= i
      ensures i in pool.st.slabs && pool.st.slabs[i].free == map[]
    {
      MulMono(k, i, Pow2(pool.pageExp));
      assert pool.shapes[i].policy.Drops?;
      assert Inv(pool.shapes[i], i, pool.st.slabs[i], pool.st.live);
    }
    assert forall i | i in pool.ordered :: i in pool.shapes && pool.st.slabs[i].free != map[];
  }

  /** What a get for such a slot hands out is the page it allocates. */
  lemma FreshPage(shapes: Shapes<nat>, st: State<nat>, k: nat, page: Addr, st': State<nat>, l: Live<nat>)
    requires k in shapes && shapes[k].Ok() && k in st.slabs && st.slabs[k].free == map[]
    requires GetStep(shapes, st, k, Some(page), st', Some(l))
    ensures l.key == k && l.page == page && st'.live == st.live + {l} && st'.heap == st.heap[page := k]
  {
  }

  /** A get for such a slot, seen from outside. */
  method GetAbove(pool: BulkPool, size: nat, page: Addr, ghost k: nat) returns (l: Live<nat>)
    requires pool.Configured() && pool.Valid() && RESERVE_MAX_SIZE < size <= U32 - Pow2(pool.pageExp)
    requires k == SlotIdx(Roundup(size, pool.pageExp), Pow2(pool.pageExp))
    requires AllocOk(pool.shapes, pool.st.heap, k, Some(page))
    modifies pool
    ensures pool.Valid() && k in pool.shapes
    ensures pool.shapes[k].slotSize == pool.shapes[k].pageBytes == Roundup(size, pool.pageExp)
    ensures l.key == k && l.page == page
    ensures pool.st.live == old(pool.st.live) + {l} && pool.st.heap == old(pool.st.heap)[page := k]
    ensures HistoryOf(pool.history, k) == HistoryOf(old(pool.history), k) + [Grown(Some(page))]
  {
    hide GetStep, BulkPool.Valid;
    NeedInRange(pool.pageExp, size);
    AboveLimit(pool, k);
    ghost var before := pool.st;
    var _, r := pool.Get(size, Some(page));
    l := r.value;
    FreshPage(pool.shapes, before, k, page, pool.st, l);
  }

  /** After two such gets the newer object is out, and after its put it is not. */
  lemma NewerGone(p: Addr, q: Addr)
    requires p != q
    ensures NewestOut([Grown(Some(p)), Grown(Some(q))])
    ensures !NewestOut([Grown(Some(p)), Grown(Some(q)), Dropped(q)])
  {
    var two, three := [Grown(Some(p)), Grown(Some(q))], [Grown(Some(p)), Grown(Some(q)), Dropped(q)];
    assert NewestAt(two, 1) && OutSince(two, 1);
    forall i | NewestAt(three, i)
      ensures !OutSince(three, i)
    {
      assert three[1].Grown? && three[2].gone == q;
    }
  }

  /** Two objects above the limit from one slot, the newer put first: the put of the older one looks up a
      page set that is gone. */
  method NewerFirst(pageExp: nat, resident: nat, size: nat, p: Addr, q: Addr) returns (defined: bool)
    requires 1 <= pageExp <= 31 && RESERVE_MAX_SIZE < size <= U32 - Pow2(pageExp)
    requires 0 < p && p + Roundup(size, pageExp) <= q
    ensures !defined
  {
    hide GetStep, BulkPool.Valid, BulkShapes, NewestOut, Roundup;
    var pool := new BulkPool(pageExp, resident);
    ghost var k := SlotIdx(Roundup(size, pageExp), Pow2(pageExp));
    var older := GetAbove(pool, size, p, k);
    RoundupLeast(size, pageExp);
    var newer := GetAbove(pool, size, q, k);
    assert HistoryOf(pool.history, k) == [Grown(Some(p)), Grown(Some(q))];
    NewerGone(p, q);
    var _, _ := pool.Put(newer);
    assert HistoryOf(pool.history, k) == [Grown(Some(p)), Grown(Some(q)), Dropped(q)];
    var found, _ := pool.Put(older);
    return found;
  }
}
