/** One slot of the memory pool: a set of owned pages, a free list per page and a counter.
    The tiny, small and big levels all work on such slots. */
module Slabs {
  import opened Options
  import opened Arith

  type Addr = nat

  /** What a put does once the object is back: give back an entirely free page when too many objects
      are free, keep everything, or give back the object's page at once. */
  datatype Policy = Trims | Keeps | Drops

  /** Object size, bytes per page, the number of free objects that may stay resident and the policy. */
  datatype Shape = Shape(slotSize: nat, pageBytes: nat, resident: nat, policy: Policy) {
    predicate Ok() {
      && 0 < slotSize <= pageBytes
      && (policy.Drops? ==> pageBytes == slotSize)
    }

    function PerPage(): (n: nat)
      requires Ok()
      ensures n >= 1 && n * slotSize <= pageBytes
    {
      DivMod(pageBytes, slotSize);
      pageBytes / slotSize
    }
  }

  datatype Slab = Slab(pages: set<Addr>, free: map<Addr, seq<Addr>>, cnt: int)

  /** An object handed out: the slot it came from, its address and its page. */
  datatype Live<Key> = Live(key: Key, addr: Addr, page: Addr)

  function ObjAddr(sh: Shape, page: Addr, i: nat): (a: Addr) {
    page + i * sh.slotSize
  }

  /** The objects a page is cut into. */
  function Split(sh: Shape, page: Addr): (objs: seq<Addr>)
    requires sh.Ok()
    ensures |objs| == sh.PerPage()
    ensures forall i | 0 <= i < |objs| :: objs[i] == ObjAddr(sh, page, i)
  {
    seq(sh.PerPage(), i requires i >= 0 => ObjAddr(sh, page, i))
  }

  /** split_mem_page */
  method SplitMemPage(sh: Shape, page: Addr) returns (objs: seq<Addr>)
    requires sh.Ok()
    ensures objs == Split(sh, page)
  {
    objs := [];
    var cnt := sh.pageBytes / sh.slotSize;
    for i := 0 to cnt
      invariant objs == Split(sh, page)[..i]
    {
      objs := objs + [page + sh.slotSize * i];
      assert Split(sh, page)[i] == page + sh.slotSize * i;
    }
  }

  function FreeAt(s: Slab, page: Addr): (objs: seq<Addr>) {
    if page in s.free then s.free[page] else []
  }

  ghost predicate NoDup<T>(s: seq<T>) {
    forall i, j | 0 <= i < j < |s| :: s[i] != s[j]
  }

  // ----- the steps of a slot

  /** alloc_page_objs when the slot has nothing free: `alloc` is the answer of posix_memalign. */
  function Refill(sh: Shape, s: Slab, alloc: Option<Addr>): (r: Slab)
    requires sh.Ok()
  {
    if s.free != map[] || alloc.None? then s
    else Slab(s.pages + {alloc.value}, map[alloc.value := Split(sh, alloc.value)], sh.PerPage())
  }

  /** get_free_obj_from_slot_page on the page the iterator yields, and the counter decrement. */
  function Take(s: Slab, page: Addr): (r: Slab)
    requires page in s.free && s.free[page] != []
  {
    var rest := s.free[page][1..];
    Slab(s.pages, if rest == [] then s.free - {page} else s.free[page := rest], s.cnt - 1)
  }

  /** The object goes to the back of its page's list and the counter is incremented. */
  function PutBack(s: Slab, addr: Addr, page: Addr): (r: Slab) {
    Slab(s.pages, s.free[page := FreeAt(s, page) + [addr]], s.cnt + 1)
  }

  function Release(sh: Shape, s: Slab, page: Addr): (r: Slab)
    requires sh.Ok()
  {
    Slab(s.pages - {page}, s.free - {page}, s.cnt - sh.PerPage())
  }

  predicate OverLimit(sh: Shape, s: Slab)
    requires sh.Ok()
  {
    s.cnt >= sh.resident + sh.PerPage()
  }

  predicate Full(sh: Shape, s: Slab, page: Addr)
    requires sh.Ok()
  {
    page in s.free && |s.free[page]| == sh.PerPage()
  }

  /** What a put does after the push. A slot that trims and is over its limit gives back a page that
      is entirely free, if there is one. */
  ghost predicate Trim(sh: Shape, s: Slab, page: Addr, released: Option<Addr>, s': Slab)
    requires sh.Ok()
  {
    match sh.policy
    case Keeps => released.None? && s' == s
    case Drops => released == Some(page) && s' == Release(sh, s, page)
    case Trims =>
      match released
      case None => s' == s && (OverLimit(sh, s) ==> forall p | p in s.free :: !Full(sh, s, p))
      case Some(p) => OverLimit(sh, s) && Full(sh, s, p) && s' == Release(sh, s, p)
  }

  // ----- counting

  ghost function Total(m: map<Addr, seq<Addr>>): (n: nat)
    decreases |m|
  {
    if m == map[] then 0
    else
      var k :| k in m;
      assert |m - {k}| < |m| by { Shrinks(m, k); }
      |m[k]| + Total(m - {k})
  }

  lemma Shrinks<V>(m: map<Addr, V>, k: Addr)
    requires k in m
    ensures |m - {k}| == |m| - 1
  {
    assert (m - {k}).Keys == m.Keys - {k};
    assert |(m - {k}).Keys| == |m.Keys| - 1;
  }

  lemma {:induction false} TotalMinus(m: map<Addr, seq<Addr>>, k: Addr)
    requires k in m
    ensures Total(m) == |m[k]| + Total(m - {k})
    decreases |m|
  {
    var c :| c in m && Total(m) == |m[c]| + Total(m - {c});
    if c != k {
      Shrinks(m, c);
      TotalMinus(m - {c}, k);
      Shrinks(m, k);
      TotalMinus(m - {k}, c);
      assert m - {c} - {k} == m - {k} - {c};
    }
  }

  lemma TotalUpdate(m: map<Addr, seq<Addr>>, k: Addr, v: seq<Addr>)
    ensures Total(m[k := v]) == Total(m - {k}) + |v|
  {
    TotalMinus(m[k := v], k);
    assert m[k := v] - {k} == m - {k};
  }

  lemma TotalGet(m: map<Addr, seq<Addr>>, k: Addr)
    ensures Total(m) == Total(m - {k}) + if k in m then |m[k]| else 0
  {
    if k in m { TotalMinus(m, k); } else { assert m - {k} == m; }
  }

  // ----- the invariant of a slot

  ghost predicate PagePartition<Key>(sh: Shape, key: Key, page: Addr, free: seq<Addr>, live: set<Live<Key>>)
    requires sh.Ok()
  {
    && NoDup(free)
    && forall a :: a in free <==> a in Split(sh, page) && Live(key, a, page) !in live
  }

  /** Every owned page is exactly the disjoint union of its free list and its live objects. */
  ghost predicate Partition<Key>(sh: Shape, key: Key, s: Slab, live: set<Live<Key>>)
    requires sh.Ok()
  {
    && (forall p | p in s.pages :: PagePartition(sh, key, p, FreeAt(s, p), live))
    && (forall a, p | Live(key, a, p) in live :: p in s.pages && a in Split(sh, p))
  }

  ghost predicate Inv<Key>(sh: Shape, key: Key, s: Slab, live: set<Live<Key>>) {
    && sh.Ok()
    && s.free.Keys <= s.pages
    && (forall p | p in s.free :: s.free[p] != [])
    && Partition(sh, key, s, live)
    && (s.pages != {} ==> s.cnt == Total(s.free))
    && Resident(sh, s)
  }

  /** In a slot that trims, the counter stays over the limit only while no page is entirely free; a
      slot that drops keeps nothing free. */
  ghost predicate Resident(sh: Shape, s: Slab)
    requires sh.Ok()
  {
    && (sh.policy.Drops? ==> s.free == map[])
    && (sh.policy.Trims? && s.pages != {} && OverLimit(sh, s) ==> forall p | p in s.free :: !Full(sh, s, p))
  }

  lemma SplitNoDup(sh: Shape, page: Addr)
    requires sh.Ok()
    ensures NoDup(Split(sh, page))
  {
    var objs := Split(sh, page);
    forall i, j | 0 <= i < j < |objs|
      ensures objs[i] != objs[j]
    {
      MulStep(i, j, sh.slotSize);
    }
  }

  lemma FreshInv<Key>(sh: Shape, key: Key, cnt: int)
    requires sh.Ok()
    ensures Inv(sh, key, Slab({}, map[], cnt), {})
  {
  }

  /** The part of the invariant that also holds between the refill and the take of a get, and between
      the push and the trim of a put. */
  ghost predicate Shaped<Key>(sh: Shape, key: Key, s: Slab, live: set<Live<Key>>) {
    && sh.Ok()
    && s.free.Keys <= s.pages
    && (forall p | p in s.free :: s.free[p] != [])
    && Partition(sh, key, s, live)
    && (s.pages != {} ==> s.cnt == Total(s.free))
  }

  lemma RefillShaped<Key>(sh: Shape, key: Key, s: Slab, live: set<Live<Key>>, page: Addr)
    requires Shaped(sh, key, s, live) && s.free == map[] && page !in s.pages
    ensures Shaped(sh, key, Refill(sh, s, Some(page)), live)
    ensures Refill(sh, s, Some(page)).free.Keys == {page}
  {
    SplitNoDup(sh, page);
    var none: map<Addr, seq<Addr>> := map[];
    TotalUpdate(none, page, Split(sh, page));
    assert none - {page} == none;
  }

  lemma TakeShaped<Key>(sh: Shape, key: Key, s: Slab, live: set<Live<Key>>, page: Addr)
    requires Shaped(sh, key, s, live) && page in s.free
    ensures var o := Live(key, s.free[page][0], page);
      o !in live && Shaped(sh, key, Take(s, page), live + {o})
  {
    var objs := FreeAt(s, page);
    var r := Take(s, page);
    var live' := live + {Live(key, objs[0], page)};
    TakeTotal(s, page);
    TakePage(sh, key, page, objs, live);
    forall p | p in r.pages
      ensures PagePartition(sh, key, p, FreeAt(r, p), live')
    {
      if p == page { assert FreeAt(r, p) == objs[1..]; } else { assert FreeAt(r, p) == FreeAt(s, p); }
    }
  }

  lemma TakePage<Key>(sh: Shape, key: Key, page: Addr, free: seq<Addr>, live: set<Live<Key>>)
    requires sh.Ok() && PagePartition(sh, key, page, free, live) && free != []
    ensures PagePartition(sh, key, page, free[1..], live + {Live(key, free[0], page)})
  {
    assert free == [free[0]] + free[1..];
  }

  lemma TakeTotal(s: Slab, page: Addr)
    requires page in s.free && s.free[page] != []
    ensures Total(Take(s, page).free) == Total(s.free) - 1
  {
    var r := Take(s, page);
    TotalGet(s.free, page);
    TotalGet(r.free, page);
    assert r.free - {page} == s.free - {page};
  }

  lemma PutShaped<Key>(sh: Shape, key: Key, s: Slab, live: set<Live<Key>>, addr: Addr, page: Addr)
    requires Shaped(sh, key, s, live) && Live(key, addr, page) in live
    ensures Shaped(sh, key, PutBack(s, addr, page), live - {Live(key, addr, page)})
  {
    var r := PutBack(s, addr, page);
    PutTotal(s, addr, page);
    forall p | p in r.pages
      ensures PagePartition(sh, key, p, FreeAt(r, p), live - {Live(key, addr, page)})
    {
      if p == page {
        assert FreeAt(r, p) == FreeAt(s, p) + [addr];
        assert addr !in FreeAt(s, p);
      } else {
        assert FreeAt(r, p) == FreeAt(s, p);
      }
    }
  }

  lemma PutTotal(s: Slab, addr: Addr, page: Addr)
    ensures Total(PutBack(s, addr, page).free) == Total(s.free) + 1
  {
    TotalGet(s.free, page);
    TotalUpdate(s.free, page, FreeAt(s, page) + [addr]);
  }

  /** A duplicate-free list drawn from the objects of a page and as long as all of them leaves no
      object of that page live. */
  lemma FullMeansNoneLive<Key>(sh: Shape, key: Key, s: Slab, live: set<Live<Key>>, page: Addr)
    requires Shaped(sh, key, s, live) && Full(sh, s, page)
    ensures forall a :: Live(key, a, page) !in live
  {
    var objs := Split(sh, page);
    SplitNoDup(sh, page);
    Pigeonhole(s.free[page], objs);
  }

  function ToSet<T(==)>(s: seq<T>): (r: set<T>)
    ensures (forall x | x in r :: x in s) && (forall x | x in s :: x in r)
  {
    set x | x in s
  }

  lemma ToSetSize<T>(s: seq<T>)
    requires NoDup(s)
    ensures |ToSet(s)| == |s|
  {
    if s != [] {
      ToSetSize(s[1..]);
      assert ToSet(s) == {s[0]} + ToSet(s[1..]);
    }
  }

  /** A duplicate-free list inside another is no longer than it, and equally long only if it holds
      every element. */
  lemma Pigeonhole<T>(a: seq<T>, b: seq<T>)
    requires NoDup(a) && NoDup(b)
    requires forall x | x in a :: x in b
    ensures |a| <= |b|
    ensures |a| == |b| ==> forall x | x in b :: x in a
  {
    ToSetSize(a);
    ToSetSize(b);
    assert ToSet(b) == ToSet(a) + (ToSet(b) - ToSet(a));
    if |a| == |b| {
      assert ToSet(b) - ToSet(a) == {};
      assert forall x | x in b :: x in ToSet(b) && x !in ToSet(b) - ToSet(a);
    }
  }

  /** A free list never outgrows its page. */
  lemma ListFits<Key>(sh: Shape, key: Key, s: Slab, live: set<Live<Key>>, page: Addr)
    requires Shaped(sh, key, s, live) && page in s.free
    ensures |s.free[page]| <= sh.PerPage()
  {
    SplitNoDup(sh, page);
    assert FreeAt(s, page) == s.free[page];
    Pigeonhole(s.free[page], Split(sh, page));
  }

  lemma ReleaseShaped<Key>(sh: Shape, key: Key, s: Slab, live: set<Live<Key>>, page: Addr)
    requires Shaped(sh, key, s, live) && Full(sh, s, page)
    ensures Shaped(sh, key, Release(sh, s, page), live)
  {
    FullMeansNoneLive(sh, key, s, live, page);
    TotalMinus(s.free, page);
    var r := Release(sh, s, page);
    assert forall p | p in r.pages :: FreeAt(r, p) == FreeAt(s, p);
  }

  // ----- what a whole get and a whole put keep

  /** A get hands out an object that was not live, and keeps the invariant. */
  lemma GetInv<Key>(sh: Shape, key: Key, s: Slab, live: set<Live<Key>>, alloc: Option<Addr>, page: Addr)
    requires Inv(sh, key, s, live)
    requires alloc.Some? ==> alloc.value !in s.pages
    requires page in Refill(sh, s, alloc).free
    ensures var r := Refill(sh, s, alloc);
      r.free[page] != [] && Live(key, r.free[page][0], page) !in live
      && Inv(sh, key, Take(r, page), live + {Live(key, r.free[page][0], page)})
  {
    var r := Refill(sh, s, alloc);
    if s.free == map[] && alloc.Some? {
      RefillShaped(sh, key, s, live, alloc.value);
    }
    TakeShaped(sh, key, r, live, page);
    ListFits(sh, key, r, live, page);
  }

  /** A put keeps the invariant, and a page is given back only when none of its objects is live. */
  lemma PutInv<Key>(sh: Shape, key: Key, s: Slab, live: set<Live<Key>>, addr: Addr, page: Addr,
                    released: Option<Addr>, s': Slab)
    requires Inv(sh, key, s, live) && Live(key, addr, page) in live
    requires Trim(sh, PutBack(s, addr, page), page, released, s')
    ensures Inv(sh, key, s', live - {Live(key, addr, page)})
    ensures released.Some? ==> released.value in s.pages
    ensures released.Some? ==> forall a :: Live(key, a, released.value) in live ==> a == addr && released.value == page
  {
    var live' := live - {Live(key, addr, page)};
    var s1 := PutBack(s, addr, page);
    PutShaped(sh, key, s, live, addr, page);
    if released.Some? {
      if sh.policy.Drops? {
        DivUnique(sh.pageBytes, sh.slotSize, 1, 0);
        ListFits(sh, key, s1, live', page);
      }
      FullMeansNoneLive(sh, key, s1, live', released.value);
      ReleaseShaped(sh, key, s1, live', released.value);
      ReleaseResident(sh, s, addr, page, released.value);
    }
  }

  /** Giving back one page brings the slot back under the limit, or no other page was entirely free. */
  lemma ReleaseResident(sh: Shape, s: Slab, addr: Addr, page: Addr, released: Addr)
    requires sh.Ok() && Resident(sh, s) && s.pages != {}
    requires Full(sh, PutBack(s, addr, page), released)
    ensures Resident(sh, Release(sh, PutBack(s, addr, page), released))
  {
    var r := Release(sh, PutBack(s, addr, page), released);
    if sh.policy.Trims? && OverLimit(sh, r) {
      assert OverLimit(sh, s);
      assert released == page;
      assert forall p | p in r.free :: r.free[p] == s.free[p];
    }
  }

  // ----- where objects lie

  /** An object of a page lies inside the page. */
  lemma InsidePage(sh: Shape, page: Addr, a: Addr)
    requires sh.Ok() && a in Split(sh, page)
    ensures page <= a && a + sh.slotSize <= page + sh.pageBytes
  {
    var objs := Split(sh, page);
    var i :| 0 <= i < |objs| && objs[i] == a;
    Distribute(i, 1, sh.slotSize);
    MulMono(i + 1, sh.PerPage(), sh.slotSize);
  }

  /** Two objects of the same page do not overlap. */
  lemma ApartInPage(sh: Shape, page: Addr, a: Addr, b: Addr)
    requires sh.Ok() && a in Split(sh, page) && b in Split(sh, page) && a != b
    ensures a + sh.slotSize <= b || b + sh.slotSize <= a
  {
    var objs := Split(sh, page);
    var i :| 0 <= i < |objs| && objs[i] == a;
    var j :| 0 <= j < |objs| && objs[j] == b;
    if i < j { MulStep(i, j, sh.slotSize); } else { MulStep(j, i, sh.slotSize); }
  }
}
