/** The slots of the memory pool over one address space. The state and its steps are values here;
    MemPool.dfy holds the object that performs them. */
module Pool {
  import opened Options
  import opened Slabs

  /** The slots, by whatever names a slot. */
  type Shapes<Key> = map<Key, Shape>

  ghost predicate ShapesOk<Key>(shapes: Shapes<Key>) {
    forall k | k in shapes :: shapes[k].Ok()
  }

  // ----- state and invariant

  /** The slots, the pages obtained from the system with the slot each was obtained for, and the
      objects handed out. */
  datatype State<Key> = State(slabs: map<Key, Slab>, heap: map<Addr, Key>, live: set<Live<Key>>)

  predicate Apart(a: Addr, n: nat, b: Addr, m: nat) {
    a + n <= b || b + m <= a
  }

  function PageBytes<Key(==)>(shapes: Shapes<Key>, k: Key): (n: nat) {
    if k in shapes then shapes[k].pageBytes else 0
  }

  /** posix_memalign fails or returns a non-null range that overlaps no page the pool holds. */
  ghost predicate AllocOk<Key>(shapes: Shapes<Key>, heap: map<Addr, Key>, k: Key, alloc: Option<Addr>) {
    alloc.Some? ==>
      && alloc.value > 0
      && alloc.value !in heap
      && forall q | q in heap :: Apart(alloc.value, PageBytes(shapes, k), q, PageBytes(shapes, heap[q]))
  }

  /** Pages held are non-null and do not overlap. */
  ghost predicate HeapOk<Key>(shapes: Shapes<Key>, heap: map<Addr, Key>) {
    && (forall p | p in heap :: p > 0)
    && forall p, q {:trigger Apart(p, PageBytes(shapes, heap[p]), q, PageBytes(shapes, heap[q]))}
         | p in heap && q in heap && p != q ::
         Apart(p, PageBytes(shapes, heap[p]), q, PageBytes(shapes, heap[q]))
  }

  /** The pages of the slots are exactly the pages held, each in the one slot it was obtained for. */
  ghost predicate Owned<Key>(st: State<Key>) {
    && (forall p | p in st.heap :: st.heap[p] in st.slabs && p in st.slabs[st.heap[p]].pages)
    && (forall k, p {:trigger p in st.slabs[k].pages} | k in st.slabs && p in st.slabs[k].pages ::
          p in st.heap && st.heap[p] == k)
  }

  ghost predicate SlabsOk<Key>(shapes: Shapes<Key>, slabs: map<Key, Slab>, live: set<Live<Key>>)
    requires slabs.Keys == shapes.Keys
  {
    && (forall k {:trigger Inv(shapes[k], k, slabs[k], live)} | k in slabs :: Inv(shapes[k], k, slabs[k], live))
    && (forall l | l in live :: l.key in slabs)
  }

  ghost predicate PoolInv<Key>(shapes: Shapes<Key>, st: State<Key>) {
    && st.slabs.Keys == shapes.Keys
    && SlabsOk(shapes, st.slabs, st.live)
    && HeapOk(shapes, st.heap)
    && Owned(st)
  }

  // ----- steps

  /** Get on a slot: refill it if it has nothing free, then take the first object of some page. */
  ghost predicate GetStep<Key>(shapes: Shapes<Key>, st: State<Key>, k: Key, alloc: Option<Addr>,
                               st': State<Key>, r: Option<Live<Key>>)
    requires k in shapes && shapes[k].Ok() && k in st.slabs
  {
    var s := st.slabs[k];
    var f := Refill(shapes[k], s, alloc);
    if r.None? then
      f.free == map[] && st' == st
    else
      && r.value.key == k && r.value.page in f.free && f.free[r.value.page] != []
      && r.value.addr == f.free[r.value.page][0]
      && st'.slabs == st.slabs[k := Take(f, r.value.page)]
      && st'.heap == (if s.free == map[] && alloc.Some? then st.heap[alloc.value := k] else st.heap)
      && st'.live == st.live + {r.value}
  }

  /** Put: push the object on its page's list; over the limit, give back an entirely free page. */
  ghost predicate PutStep<Key>(shapes: Shapes<Key>, st: State<Key>, l: Live<Key>, released: Option<Addr>,
                               st': State<Key>)
  {
    && l in st.live && l.key in st.slabs && l.key in st'.slabs && l.key in shapes && shapes[l.key].Ok()
    && Trim(shapes[l.key], PutBack(st.slabs[l.key], l.addr, l.page), l.page, released, st'.slabs[l.key])
    && st'.slabs == st.slabs[l.key := st'.slabs[l.key]]
    && st'.heap == (if released.Some? then st.heap - {released.value} else st.heap)
    && st'.live == st.live - {l}
  }

  // ----- when a page is given back

  /** How many objects of a page are free once an object of some page is pushed. */
  ghost function Pushed(free: map<Addr, seq<Addr>>, page: Addr, p: Addr): (n: nat) {
    (if p in free then |free[p]| else 0) + if p == page then 1 else 0
  }

  /** After the push of an object a page is given back exactly when the objects free are at least so many as may
      stay resident and a page of them more, and some page has all its objects free; then such a page is. */
  ghost predicate GivesBack(free: map<Addr, seq<Addr>>, page: Addr, resident: nat, perPage: nat,
                            released: Option<Addr>) {
    && (released.Some? <==>
          Total(free) + 1 >= resident + perPage && exists p: Addr :: Pushed(free, page, p) == perPage)
    && (released.Some? ==> Pushed(free, page, released.value) == perPage)
  }

  lemma TrimGivesBack<Key>(sh: Shape, s: Slab, live: set<Live<Key>>, l: Live<Key>, released: Option<Addr>, s': Slab)
    requires Inv(sh, l.key, s, live) && l in live && sh.policy.Trims?
    requires Trim(sh, PutBack(s, l.addr, l.page), l.page, released, s')
    ensures GivesBack(s.free, l.page, sh.resident, sh.PerPage(), released)
  {
    assert l == Live(l.key, l.addr, l.page) && l.page in s.pages;
    var s1 := PutBack(s, l.addr, l.page);
    forall p: Addr
      ensures p in s1.free ==> |s1.free[p]| == Pushed(s.free, l.page, p)
      ensures p !in s1.free ==> Pushed(s.free, l.page, p) == 0
    {
    }
    if OverLimit(sh, s1) && released.None? {
      forall p: Addr
        ensures Pushed(s.free, l.page, p) != sh.PerPage()
      {
        assert p in s1.free ==> !Full(sh, s1, p);
      }
    }
  }

  // ----- what a step keeps

  /** A slot's invariant looks only at the live objects of that slot. */
  lemma OtherKey<Key>(sh: Shape, k: Key, s: Slab, live: set<Live<Key>>, live': set<Live<Key>>)
    requires Inv(sh, k, s, live)
    requires forall l | l in live || l in live' :: l.key == k ==> l in live && l in live'
    ensures Inv(sh, k, s, live')
  {
    forall p | p in s.pages
      ensures PagePartition(sh, k, p, FreeAt(s, p), live')
    {
      assert PagePartition(sh, k, p, FreeAt(s, p), live);
    }
  }

  /** Replacing one slot, with live objects of other slots unchanged, keeps every slot's invariant. */
  lemma SlotReplaced<Key>(shapes: Shapes<Key>, slabs: map<Key, Slab>, live: set<Live<Key>>, k: Key, s': Slab,
                          live': set<Live<Key>>)
    requires slabs.Keys == shapes.Keys && SlabsOk(shapes, slabs, live)
    requires k in slabs && Inv(shapes[k], k, s', live')
    requires forall l | l in live || l in live' :: l.key != k ==> l in live && l in live'
    ensures SlabsOk(shapes, slabs[k := s'], live')
  {
    forall k' | k' in slabs && k' != k
      ensures Inv(shapes[k'], k', slabs[k'], live')
    {
      OtherKey(shapes[k'], k', slabs[k'], live, live');
    }
  }

  lemma GetSlabs<Key>(shapes: Shapes<Key>, st: State<Key>, k: Key, alloc: Option<Addr>, st': State<Key>, r: Live<Key>)
    requires st.slabs.Keys == shapes.Keys && SlabsOk(shapes, st.slabs, st.live)
    requires k in shapes && shapes[k].Ok() && Owned(st) && AllocOk(shapes, st.heap, k, alloc)
    requires GetStep(shapes, st, k, alloc, st', Some(r)) && st'.slabs.Keys == st.slabs.Keys
    ensures SlabsOk(shapes, st'.slabs, st'.live)
    ensures r !in st.live
  {
    assert alloc.Some? ==> alloc.value !in st.slabs[k].pages;
    GetInv(shapes[k], k, st.slabs[k], st.live, alloc, r.page);
    assert r == Live(k, r.addr, r.page);
    SlotReplaced(shapes, st.slabs, st.live, k, st'.slabs[k], st'.live);
  }

  lemma GetHeap<Key>(shapes: Shapes<Key>, st: State<Key>, k: Key, alloc: Option<Addr>, st': State<Key>, r: Live<Key>)
    requires HeapOk(shapes, st.heap) && Owned(st) && AllocOk(shapes, st.heap, k, alloc)
    requires k in shapes && shapes[k].Ok() && k in st.slabs && GetStep(shapes, st, k, alloc, st', Some(r))
    ensures HeapOk(shapes, st'.heap) && Owned(st') && st'.slabs.Keys == st.slabs.Keys
  {
    var s := st.slabs[k];
    if s.free == map[] && alloc.Some? {
      assert st'.slabs[k].pages == s.pages + {alloc.value};
    } else {
      assert st'.slabs[k].pages == s.pages;
    }
    assert forall k' | k' in st.slabs && k' != k :: st'.slabs[k'] == st.slabs[k'];
  }

  /** Every get keeps the invariant and hands out an object that was not live. */
  lemma GetKeeps<Key>(shapes: Shapes<Key>, st: State<Key>, k: Key, alloc: Option<Addr>,
                      st': State<Key>, r: Option<Live<Key>>)
    requires PoolInv(shapes, st) && k in shapes && shapes[k].Ok()
    requires AllocOk(shapes, st.heap, k, alloc)
    requires GetStep(shapes, st, k, alloc, st', r)
    ensures PoolInv(shapes, st')
    ensures r.Some? ==> r.value !in st.live
  {
    if r.Some? {
      GetHeap(shapes, st, k, alloc, st', r.value);
      GetSlabs(shapes, st, k, alloc, st', r.value);
    }
  }

  lemma PutSlabs<Key>(shapes: Shapes<Key>, st: State<Key>, l: Live<Key>, released: Option<Addr>, st': State<Key>)
    requires st.slabs.Keys == shapes.Keys && SlabsOk(shapes, st.slabs, st.live)
    requires PutStep(shapes, st, l, released, st')
    ensures SlabsOk(shapes, st'.slabs, st'.live)
    ensures released.Some? ==> released.value in st.slabs[l.key].pages
  {
    var k, s' := l.key, st'.slabs[l.key];
    assert l == Live(k, l.addr, l.page);
    PutInv(shapes[k], k, st.slabs[k], st.live, l.addr, l.page, released, s');
    SlotReplaced(shapes, st.slabs, st.live, k, s', st'.live);
  }

  lemma PutHeap<Key>(shapes: Shapes<Key>, st: State<Key>, l: Live<Key>, released: Option<Addr>, st': State<Key>)
    requires HeapOk(shapes, st.heap) && Owned(st) && PutStep(shapes, st, l, released, st')
    requires released.Some? ==> released.value in st.slabs[l.key].pages
    ensures HeapOk(shapes, st'.heap) && Owned(st') && st'.slabs.Keys == st.slabs.Keys
  {
    var s := st.slabs[l.key];
    assert st'.slabs[l.key].pages == if released.Some? then s.pages - {released.value} else s.pages;
    assert forall k' | k' in st.slabs && k' != l.key :: st'.slabs[k'] == st.slabs[k'];
  }

  /** Every put keeps the invariant, and gives back only a page that holds no live object. */
  lemma PutKeeps<Key>(shapes: Shapes<Key>, st: State<Key>, l: Live<Key>, released: Option<Addr>, st': State<Key>)
    requires PoolInv(shapes, st) && PutStep(shapes, st, l, released, st')
    ensures PoolInv(shapes, st')
    ensures released.Some? ==> released.value in st.heap
    ensures released.Some? ==> forall l' | l' in st'.live :: l'.page != released.value
  {
    PutSlabs(shapes, st, l, released, st');
    PutHeap(shapes, st, l, released, st');
    if released.Some? {
      NoneLeftOn(shapes, st', released.value);
    }
  }

  // ----- safety

  /** Live objects lie inside pages the pool holds. */
  lemma LiveInside<Key>(shapes: Shapes<Key>, st: State<Key>, l: Live<Key>)
    requires PoolInv(shapes, st) && l in st.live
    ensures l.key in shapes && shapes[l.key].Ok() && l.page in st.slabs[l.key].pages && l.page in st.heap
    ensures l.addr in Split(shapes[l.key], l.page)
    ensures l.page <= l.addr && l.addr + shapes[l.key].slotSize <= l.page + PageBytes(shapes, st.heap[l.page])
  {
    assert l == Live(l.key, l.addr, l.page);
    assert Inv(shapes[l.key], l.key, st.slabs[l.key], st.live);
    InsidePage(shapes[l.key], l.page, l.addr);
  }

  lemma NoneLeftOn<Key>(shapes: Shapes<Key>, st: State<Key>, page: Addr)
    requires PoolInv(shapes, st) && page !in st.heap
    ensures forall l | l in st.live :: l.page != page
  {
    forall l | l in st.live
      ensures l.page != page
    {
      LiveInside(shapes, st, l);
    }
  }

  /** No two live objects overlap, of whatever slots. */
  lemma LiveApart<Key>(shapes: Shapes<Key>, st: State<Key>, l: Live<Key>, l': Live<Key>)
    requires PoolInv(shapes, st) && l in st.live && l' in st.live && l != l'
    ensures l.key in shapes && l'.key in shapes
    ensures Apart(l.addr, shapes[l.key].slotSize, l'.addr, shapes[l'.key].slotSize)
  {
    LiveInside(shapes, st, l);
    LiveInside(shapes, st, l');
    if l.page == l'.page {
      assert l.key == l'.key;
      ApartInPage(shapes[l.key], l.page, l.addr, l'.addr);
    } else {
      assert Apart(l.page, PageBytes(shapes, st.heap[l.page]), l'.page, PageBytes(shapes, st.heap[l'.page]));
    }
  }

  // ----- whole runs

  datatype Event<Key> =
    | Got(key: Key, alloc: Option<Addr>, r: Option<Live<Key>>)
    | Put(l: Live<Key>, released: Option<Addr>)

  ghost predicate Step<Key>(shapes: Shapes<Key>, st: State<Key>, ev: Event<Key>, st': State<Key>) {
    match ev
    case Got(k, alloc, r) =>
      && k in shapes && shapes[k].Ok() && k in st.slabs
      && AllocOk(shapes, st.heap, k, alloc)
      && GetStep(shapes, st, k, alloc, st', r)
    case Put(l, released) => PutStep(shapes, st, l, released, st')
  }

  /** A new pool owns nothing; a counter may start as whatever the memory held. */
  function Initial<Key(==)>(cnts: map<Key, int>): (st: State<Key>) {
    State(map k | k in cnts :: Slab({}, map[], cnts[k]), map[], {})
  }

  /** Any sequence of gets and puts, each object put at most once per get, from a new pool. */
  ghost predicate Run<Key>(shapes: Shapes<Key>, cnts: map<Key, int>, states: seq<State<Key>>, events: seq<Event<Key>>) {
    && ShapesOk(shapes) && cnts.Keys == shapes.Keys
    && |states| == |events| + 1
    && states[0] == Initial(cnts)
    && forall i | 0 <= i < |events| :: Step(shapes, states[i], events[i], states[i + 1])
  }

  lemma InitialInv<Key>(shapes: Shapes<Key>, cnts: map<Key, int>)
    requires ShapesOk(shapes) && cnts.Keys == shapes.Keys
    ensures PoolInv(shapes, Initial(cnts))
  {
    var st := Initial(cnts);
    forall k | k in st.slabs
      ensures Inv(shapes[k], k, st.slabs[k], {})
    {
      FreshInv(shapes[k], k, st.slabs[k].cnt);
    }
  }

  lemma StepKeeps<Key>(shapes: Shapes<Key>, st: State<Key>, ev: Event<Key>, st': State<Key>)
    requires PoolInv(shapes, st) && Step(shapes, st, ev, st')
    ensures PoolInv(shapes, st')
  {
    match ev {
      case Got(k, alloc, r) => GetKeeps(shapes, st, k, alloc, st', r);
      case Put(l, released) => PutKeeps(shapes, st, l, released, st');
    }
  }

  lemma {:induction false} RunKeeps<Key>(shapes: Shapes<Key>, cnts: map<Key, int>, states: seq<State<Key>>,
                                         events: seq<Event<Key>>, n: nat)
    requires Run(shapes, cnts, states, events) && n < |states|
    ensures PoolInv(shapes, states[n])
  {
    if n == 0 {
      InitialInv(shapes, cnts);
    } else {
      RunKeeps(shapes, cnts, states, events, n - 1);
      assert Step(shapes, states[n - 1], events[n - 1], states[n - 1 + 1]);
      StepKeeps(shapes, states[n - 1], events[n - 1], states[n]);
    }
  }

  /** In every state of every run: every live object lies inside a page the pool holds, and no two
      live objects overlap. */
  lemma RunSafe<Key>(shapes: Shapes<Key>, cnts: map<Key, int>, states: seq<State<Key>>, events: seq<Event<Key>>, n: nat,
                l: Live<Key>, l': Live<Key>)
    requires Run(shapes, cnts, states, events) && n < |states|
    requires l in states[n].live && l' in states[n].live
    ensures l.key in shapes && l'.key in shapes && l.page in states[n].heap
    ensures l.page <= l.addr && l.addr + shapes[l.key].slotSize <= l.page + PageBytes(shapes, states[n].heap[l.page])
    ensures l == l' || Apart(l.addr, shapes[l.key].slotSize, l'.addr, shapes[l'.key].slotSize)
  {
    RunKeeps(shapes, cnts, states, events, n);
    LiveInside(shapes, states[n], l);
    if l != l' { LiveApart(shapes, states[n], l, l'); }
  }

  /** In every run a page is given back only while none of its objects is live, and while it is held. */
  lemma RunReleases<Key>(shapes: Shapes<Key>, cnts: map<Key, int>, states: seq<State<Key>>,
                         events: seq<Event<Key>>, n: nat, page: Addr)
    requires Run(shapes, cnts, states, events) && n < |events|
    requires events[n].Put? && events[n].released == Some(page)
    ensures page in states[n].heap && page !in states[n + 1].heap
    ensures forall l | l in states[n + 1].live :: l.page != page
  {
    RunKeeps(shapes, cnts, states, events, n);
    assert Step(shapes, states[n], events[n], states[n + 1]);
    PutKeeps(shapes, states[n], events[n].l, events[n].released, states[n + 1]);
  }

  /** In every state of every run a slot that holds pages has counted its free objects exactly, and is
      over its limit, if it trims, only if no page of it is entirely free. */
  lemma RunCounts<Key>(shapes: Shapes<Key>, cnts: map<Key, int>, states: seq<State<Key>>,
                       events: seq<Event<Key>>, n: nat, k: Key)
    requires Run(shapes, cnts, states, events) && n < |states| && k in shapes
    ensures shapes[k].Ok() && k in states[n].slabs
    ensures var s := states[n].slabs[k];
      s.pages != {} ==>
        && s.cnt == Total(s.free)
        && (shapes[k].policy.Trims? && s.cnt >= shapes[k].resident + shapes[k].PerPage() ==>
              forall p | p in s.free :: |s.free[p]| != shapes[k].PerPage())
  {
    RunKeeps(shapes, cnts, states, events, n);
    assert Inv(shapes[k], k, states[n].slabs[k], states[n].live);
    assert forall p | p in states[n].slabs[k].free :: !Full(shapes[k], states[n].slabs[k], p)
             <==> |states[n].slabs[k].free[p]| != shapes[k].PerPage();
  }
}
