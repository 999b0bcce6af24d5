/** The memory pool object: the tiny, small and big levels of Get and Put, with recycled handles. */
module MemPool {
  import opened Options
  import opened Arith
  import opened Rounding
  import opened Slabs
  import opened Pool
  import opened PoolConfig

  datatype MemObjectType = Tiny | Small | Big

  /** The handle a caller holds for one object. */
  class MemObject {
    var kind: MemObjectType
    var slotSize: nat
    var objPv: Addr
    var pagePv: Addr

    constructor (kind: MemObjectType, slotSize: nat, objPv: Addr, pagePv: Addr)
      ensures Holds(kind, slotSize, objPv, pagePv)
    {
      this.kind, this.slotSize, this.objPv, this.pagePv := kind, slotSize, objPv, pagePv;
    }

    method Refresh(kind: MemObjectType, slotSize: nat, objPv: Addr, pagePv: Addr)
      modifies this
      ensures Holds(kind, slotSize, objPv, pagePv)
    {
      this.kind, this.slotSize, this.objPv, this.pagePv := kind, slotSize, objPv, pagePv;
    }

    ghost predicate Holds(kind: MemObjectType, slotSize: nat, objPv: Addr, pagePv: Addr)
      reads this
    {
      this.kind == kind && this.slotSize == slotSize && this.objPv == objPv && this.pagePv == pagePv
    }
  }

  /** The slot a handle goes back to, computed from its type and size as put does. */
  function KeyOf(cfg: Config, kind: MemObjectType, slotSize: nat): (k: SlotKey) {
    match kind
    case Tiny => TinyKey
    case Small => SmallKey(SlotIdx(slotSize, SMALL_FOOTSTEP))
    case Big => BigKey(SlotIdx(slotSize, cfg.PageSize()))
  }

  /** Bytes of the page an object of this type and size came from, recomputed on a put. */
  function OnePageBytes(cfg: Config, kind: MemObjectType, slotSize: nat): (n: nat) {
    if kind.Tiny? then cfg.PageSize()
    else ExpandPageSize(slotSize, EXPAND_OBJ_CNT_FACTOR, cfg.PageSize())
  }

  function ResidentCnt(cfg: Config, kind: MemObjectType): (n: nat) {
    match kind
    case Tiny => cfg.tinyResident
    case Small => cfg.smallResident
    case Big => cfg.bigResident
  }

  function KindOf(k: SlotKey): (kind: MemObjectType) {
    match k
    case TinyKey => Tiny
    case SmallKey(_) => Small
    case BigKey(_) => Big
  }

  /** Type and size identify the slot again, and the page size recomputed from them is the size the
      page was allocated with. */
  lemma SlotRoundTrip(cfg: Config, k: SlotKey)
    requires cfg.Valid() && cfg.HasKey(k)
    ensures KeyOf(cfg, KindOf(k), cfg.SlotSize(k)) == k
    ensures cfg.ShapeOf(k) == Shape(cfg.SlotSize(k), OnePageBytes(cfg, KindOf(k), cfg.SlotSize(k)),
                                    ResidentCnt(cfg, KindOf(k)), Trims)
  {
    match k {
      case TinyKey =>
      case SmallKey(i) => DivUnique(i * SMALL_FOOTSTEP, SMALL_FOOTSTEP, i, 0);
      case BigKey(i) => DivUnique(i * cfg.PageSize(), cfg.PageSize(), i, 0);
    }
  }

  /** The get of one slot: allocate and split a page if nothing is free, then take the first object of
      whichever page the iteration starts with. */
  method SlotGet(sh: Shape, s: Slab, alloc: Option<Addr>) returns (s': Slab, page: Addr, obj: Option<Addr>)
    requires sh.Ok() && (forall p | p in s.free :: s.free[p] != [])
    ensures obj.None? <==> Refill(sh, s, alloc).free == map[]
    ensures obj.None? ==> s' == s
    ensures obj.Some? ==>
      var f := Refill(sh, s, alloc);
      page in f.free && f.free[page] != [] && obj.value == f.free[page][0] && s' == Take(f, page)
  {
    s' := s;
    page := 0;
    obj := None;
    if s'.free == map[] && alloc.Some? {
      var objs := SplitMemPage(sh, alloc.value);
      s' := Slab(s'.pages + {alloc.value}, s'.free[alloc.value := objs], sh.pageBytes / sh.slotSize);
      assert s' == Refill(sh, s, alloc);
      assert alloc.value in s'.free && s'.free[alloc.value] != [];
    }
    if s'.free != map[] {
      page :| page in s'.free;
      var objs := s'.free[page];
      obj := Some(objs[0]);
      var rest := objs[1..];
      s' := Slab(s'.pages, if rest == [] then s'.free - {page} else s'.free[page := rest], s'.cnt - 1);
    }
  }

  /** The push of an object to the free list of its page. */
  method SlotPush(s: Slab, obj: Addr, page: Addr) returns (s': Slab)
    ensures s' == PutBack(s, obj, page)
  {
    var free := s.free;
    if page !in free {
      free := free[page := []];
    }
    free := free[page := free[page] + [obj]];
    s' := Slab(s.pages, free, s.cnt + 1);
  }

  /** The put of one slot: push the object, and over the limit look for a page that is entirely free
      and give it back. */
  method SlotPut(sh: Shape, s: Slab, obj: Addr, page: Addr) returns (s': Slab, released: Option<Addr>)
    requires sh.Ok() && sh.policy.Trims?
    ensures Trim(sh, PutBack(s, obj, page), page, released, s')
  {
    hide PutBack;
    s' := SlotPush(s, obj, page);
    var free := s'.free;
    released := None;
    var onePageObjsCnt := sh.pageBytes / sh.slotSize;
    if s'.cnt >= sh.resident + onePageObjsCnt {
      var rest := free.Keys;
      while rest != {}
        invariant rest <= free.Keys && released.None? && s' == PutBack(s, obj, page)
        invariant forall p | p in free && p !in rest :: !Full(sh, s', p)
        decreases |rest|
      {
        var p :| p in rest;
        if onePageObjsCnt == |free[p]| {
          released := Some(p);
          s' := Slab(s'.pages - {p}, s'.free - {p}, s'.cnt - onePageObjsCnt);
          break;
        }
        rest := rest - {p};
      }
    }
  }

  /** The pool. The page sets, free lists and counters of all slots are one table, by level and slot
      index. */
  class MemPool {
    const cfg: GoodConfig
    ghost const shapes: Shapes<SlotKey> := SlotShapes(cfg)
    var slabs: map<SlotKey, Slab>
    var freeMemObjs: seq<MemObject>
    /** The pages obtained from the system, and the handles callers hold. */
    ghost var heap: map<Addr, SlotKey>
    ghost var held: map<MemObject, Live<SlotKey>>

    ghost function Abs(): (st: State<SlotKey>)
      reads this
    {
      State(slabs, heap, held.Values)
    }

    /** Free handles are distinct and held by nobody; a held handle names its object and its slot. */
    ghost predicate HandlesOk()
      reads this, held.Keys
    {
      && NoDup(freeMemObjs)
      && (forall h | h in held :: h !in freeMemObjs)
      && (forall h | h in held ::
            && held[h].key in shapes
            && h.Holds(KindOf(held[h].key), shapes[held[h].key].slotSize, held[h].addr, held[h].page))
      && (forall h, h' | h in held && h' in held && held[h] == held[h'] :: h == h')
    }

    ghost predicate Valid()
      reads this, held.Keys
    {
      && PoolInv(shapes, Abs())
      && HandlesOk()
    }

    constructor (cfg: GoodConfig, tinyCnt: int)
      ensures this.cfg == cfg && Valid()
      ensures held == map[] && Abs() == Initial(map k | k in shapes :: if k.TinyKey? then tinyCnt else 0)
    {
      var cnts := map k | k in SlotShapes(cfg) :: if k.TinyKey? then tinyCnt else 0;
      InitialInv(SlotShapes(cfg), cnts);
      this.cfg := cfg;
      slabs := Initial(cnts).slabs;
      freeMemObjs := [];
      heap := map[];
      held := map[];
      new;
      assert Abs() == Initial(cnts);
    }

    /** get_mem_object: reuse the first free handle, or make a new one. */
    method GetMemObject(kind: MemObjectType, slotSize: nat, objPv: Addr, pagePv: Addr) returns (r: MemObject)
      requires NoDup(freeMemObjs)
      modifies this`freeMemObjs, freeMemObjs
      ensures r.Holds(kind, slotSize, objPv, pagePv)
      ensures NoDup(freeMemObjs) && r !in freeMemObjs
      ensures if old(freeMemObjs) == [] then fresh(r) && freeMemObjs == []
              else r == old(freeMemObjs)[0] && freeMemObjs == old(freeMemObjs)[1..]
      ensures forall h | h in old(freeMemObjs) && h != r :: unchanged(h)
    {
      if freeMemObjs != [] {
        r := freeMemObjs[0];
        r.Refresh(kind, slotSize, objPv, pagePv);
        freeMemObjs := freeMemObjs[1..];
      } else {
        r := new MemObject(kind, slotSize, objPv, pagePv);
      }
    }

    /** The part of Get under the slot's lock: it leaves the pool as if the object were already held. */
    method TakeObject(k: SlotKey, sh: Shape, alloc: Option<Addr>) returns (page: Addr, obj: Option<Addr>)
      requires PoolInv(shapes, Abs())
      requires k in shapes && shapes[k] == sh && sh.Ok() && AllocOk(shapes, heap, k, alloc)
      modifies this`slabs, this`heap
      ensures obj.None? ==> GetStep(shapes, old(Abs()), k, alloc, Abs(), None)
      ensures obj.Some? ==>
        var l := Live(k, obj.value, page);
        var st' := State(slabs, heap, held.Values + {l});
        l !in held.Values && PoolInv(shapes, st') && GetStep(shapes, old(Abs()), k, alloc, st', Some(l))
    {
      var s := slabs[k];
      assert Inv(sh, k, s, held.Values);
      var s';
      s', page, obj := SlotGet(sh, s, alloc);
      if obj.Some? {
        ghost var st, l := Abs(), Live(k, obj.value, page);
        slabs := slabs[k := s'];
        if s.free == map[] && alloc.Some? {
          heap := heap[alloc.value := k];
        }
        GetKeeps(shapes, st, k, alloc, State(slabs, heap, held.Values + {l}), Some(l));
      }
    }

    /** Wrap an object already taken from its slot into a handle. */
    method HandOut(k: SlotKey, kind: MemObjectType, slotSize: nat, obj: Addr, page: Addr) returns (r: MemObject)
      requires HandlesOk() && k in shapes && kind == KindOf(k) && slotSize == shapes[k].slotSize
      requires Live(k, obj, page) !in held.Values
      requires PoolInv(shapes, State(slabs, heap, held.Values + {Live(k, obj, page)}))
      modifies this`freeMemObjs, this`held, freeMemObjs
      ensures Valid() && r !in old(held) && r.slotSize == slotSize && r.kind == kind
      ensures held == old(held)[r := Live(k, obj, page)]
      ensures Abs() == State(slabs, heap, old(held.Values) + {Live(k, obj, page)})
    {
      hide PoolInv, SlotShapes, KindOf;
      r := GetMemObject(kind, slotSize, obj, page);
      Extended(held, r, Live(k, obj, page));
      held := held[r := Live(k, obj, page)];
    }

    /** The level that serves a size, and the size of its objects: the least multiple of the footstep that is
        large enough. */
    ghost predicate Fits(size: nat, kind: MemObjectType, slotSize: nat) {
      if size <= cfg.tinyThreshold then kind.Tiny? && slotSize == cfg.tinyThreshold
      else if size <= cfg.bigThreshold then kind.Small? && IsLeastMultiple(slotSize, size, 32)
      else kind.Big? && IsLeastMultiple(slotSize, size, cfg.PageSize())
    }

    /** The level and object size of a request, and the slot they name. */
    method Classify(size: nat) returns (k: SlotKey, kind: MemObjectType, sh: Shape)
      requires cfg.Served(size)
      ensures k == cfg.KeyFor(size) && (cfg.HasKey(k) <==> cfg.Reached(size))
      ensures k in shapes <==> cfg.HasKey(k) && cfg.ShapeOf(k).Ok()
      ensures k in shapes ==> kind == KindOf(k)
      ensures k in shapes ==> sh == shapes[k] && sh.Ok() && sh.slotSize >= size && Fits(size, kind, sh.slotSize)
    {
      var slotSize := cfg.tinyThreshold;
      kind := Tiny;
      if size > cfg.tinyThreshold {
        if cfg.bigThreshold < size {
          kind, slotSize := Big, Roundup(size, cfg.pageExp);
        } else {
          kind, slotSize := Small, Roundup(size, SMALL_FOOTSTEP_EXPONENT);
        }
      }
      k := KeyOf(cfg, kind, slotSize);
      GetLookup(cfg, size, kind, slotSize);
      LeastSlot(cfg, size);
      sh := Shape(slotSize, OnePageBytes(cfg, kind, slotSize), ResidentCnt(cfg, kind), Trims);
    }

    /** Get from a given slot. */
    method GetFrom(k: SlotKey, kind: MemObjectType, sh: Shape, alloc: Option<Addr>) returns (r: MemObject?)
      requires Valid() && k in shapes && kind == KindOf(k) && sh == shapes[k] && sh.Ok()
      requires AllocOk(shapes, heap, k, alloc)
      modifies this, freeMemObjs
      ensures Valid()
      ensures r == null ==> held == old(held)
      ensures r != null ==> r !in old(held) && r in held && held == old(held)[r := held[r]]
      ensures r != null ==> r.slotSize == sh.slotSize && r.kind == kind
      ensures GetStep(shapes, old(Abs()), k, alloc, Abs(), if r == null then None else Some(held[r]))
    {
      hide PoolInv, GetStep, AllocOk, SlotShapes, KindOf;
      var page, obj := TakeObject(k, sh, alloc);
      r := null;
      if obj.Some? {
        r := HandOut(k, kind, sh.slotSize, obj.value, page);
        assert held[r] == Live(k, obj.value, page);
      }
    }

    /** Get, for the sizes of the tiny, small and big levels. The source looks the slot up without checking
        that it is there, and takes the first object of a new page without checking that there is one;
        `defined` says whether both were. `alloc` is what posix_memalign would answer if it is asked. */
    method Get(size: nat, alloc: Option<Addr>) returns (defined: bool, r: MemObject?)
      requires Valid() && cfg.Served(size)
      requires cfg.KeyFor(size) in shapes ==> AllocOk(shapes, heap, cfg.KeyFor(size), alloc)
      modifies this, freeMemObjs
      ensures Valid()
      ensures defined <==> cfg.Reached(size) && (cfg.ShapeOf(cfg.KeyFor(size)).Ok() || alloc.None?)
      ensures r == null ==> held == old(held)
      ensures r != null ==> r !in old(held) && r in held && held == old(held)[r := held[r]]
      ensures r != null ==> r.slotSize >= size && Fits(size, r.kind, r.slotSize)
      ensures defined && cfg.ShapeOf(cfg.KeyFor(size)).Ok() ==>
        && cfg.KeyFor(size) in shapes && shapes[cfg.KeyFor(size)].Ok()
        && GetStep(shapes, old(Abs()), cfg.KeyFor(size), alloc, Abs(), if r == null then None else Some(held[r]))
      ensures !(defined && cfg.ShapeOf(cfg.KeyFor(size)).Ok()) ==>
        r == null && Abs() == old(Abs()) && freeMemObjs == old(freeMemObjs)
    {
      var k, kind, sh := Classify(size);
      r := null;
      defined := cfg.HasKey(k);
      if k in slabs {
        r := GetFrom(k, kind, sh, alloc);
      } else if alloc.Some? {
        defined := false;
      }
    }

    /** The objects a page has. */
    static function ObjsOf(bytes: nat, slotSize: nat): (n: nat)
      requires slotSize > 0
    {
      DivMod(bytes, slotSize);
      bytes / slotSize
    }

    /** What may stay resident, by the type of the handle, and how many objects a page of its size has. */
    ghost predicate Trimmed(kind: MemObjectType, slotSize: nat, free: map<Addr, seq<Addr>>, page: Addr,
                            released: Option<Addr>)
      requires slotSize > 0
    {
      match kind
      case Tiny => GivesBack(free, page, cfg.tinyResident, ObjsOf(cfg.PageSize(), slotSize), released)
      case Small =>
        var perPage := ObjsOf(ExpandPageSize(slotSize, 32, cfg.PageSize()), slotSize);
        GivesBack(free, page, cfg.smallResident, perPage, released)
      case Big =>
        var perPage := ObjsOf(ExpandPageSize(slotSize, 32, cfg.PageSize()), slotSize);
        GivesBack(free, page, cfg.bigResident, perPage, released)
    }

    lemma TrimmedAs(k: SlotKey, free: map<Addr, seq<Addr>>, page: Addr, released: Option<Addr>)
      requires k in shapes && GivesBack(free, page, shapes[k].resident, shapes[k].PerPage(), released)
      ensures shapes[k].slotSize > 0 && Trimmed(KindOf(k), shapes[k].slotSize, free, page, released)
    {
      hide GivesBack, ExpandPageSize;
    }

    /** put: find the slot again from the handle's type and size, push the object and trim the slot. */
    method ReturnObject(kind: MemObjectType, slotSize: nat, obj: Addr, page: Addr, ghost k: SlotKey)
      returns (released: Option<Addr>)
      requires PoolInv(shapes, Abs())
      requires k in shapes && kind == KindOf(k) && slotSize == shapes[k].slotSize
      requires Live(k, obj, page) in held.Values
      modifies this`slabs, this`heap
      ensures var l := Live(k, obj, page);
        var st' := State(slabs, heap, held.Values - {l});
        PoolInv(shapes, st') && PutStep(shapes, old(Abs()), l, released, st')
      ensures slotSize > 0 && k in old(slabs) && Trimmed(kind, slotSize, old(slabs)[k].free, page, released)
    {
      hide GivesBack, Trimmed, ExpandPageSize, Slabs.PutBack, Slabs.Trim, Slabs.Inv, Pool.HeapOk, Pool.Owned;
      SlotRoundTrip(cfg, k);
      var slot := KeyOf(cfg, kind, slotSize);
      var sh := Shape(slotSize, OnePageBytes(cfg, kind, slotSize), ResidentCnt(cfg, kind), Trims);
      assert slot == k && sh == shapes[k];
      ghost var st := Abs();
      assert Inv(sh, k, slabs[k], held.Values);
      var s';
      s', released := SlotPut(sh, slabs[slot], obj, page);
      TrimGivesBack(sh, slabs[k], held.Values, Live(k, obj, page), released, s');
      TrimmedAs(k, slabs[k].free, page, released);
      slabs := slabs[slot := s'];
      if released.Some? {
        heap := heap - {released.value};
      }
      PutKeeps(shapes, st, Live(k, obj, page), released, State(slabs, heap, held.Values - {Live(k, obj, page)}));
    }

    /** Put: a null handle is ignored; otherwise the object goes back and the handle becomes free. The
        result is the page given back to the system, if any: there is one exactly when the objects free in the
        slot are at least so many as may stay resident and a page of them more, and some page is entirely free. */
    method Put(h: MemObject?) returns (released: Option<Addr>)
      requires Valid() && (h != null ==> h in held)
      modifies this
      ensures Valid()
      ensures h == null ==> Abs() == old(Abs()) && held == old(held)
      ensures h != null ==> held == old(held) - {h} && freeMemObjs == old(freeMemObjs) + [h]
      ensures h != null ==> PutStep(shapes, old(Abs()), old(held[h]), released, Abs())
      ensures h != null ==>
        old(h.slotSize) > 0 && old(held[h].key in slabs)
        && Trimmed(old(h.kind), old(h.slotSize), old(slabs[held[h].key].free), old(h.pagePv), released)
    {
      hide PoolInv, PutStep, SlotShapes, KindOf, Trimmed;
      released := None;
      if h != null {
        ghost var l := held[h];
        assert l in held.Values;
        released := ReturnObject(h.kind, h.slotSize, h.objPv, h.pagePv, l.key);
        ghost var st' := State(slabs, heap, held.Values - {l});
        Removed(held, h);
        held := held - {h};
        freeMemObjs := freeMemObjs + [h];
        assert Abs() == st';
      }
    }
  }

  /** Memory behind two handles held at the same time never overlaps. */
  lemma HeldApart(pool: MemPool, h: MemObject, h': MemObject)
    requires pool.Valid() && h in pool.held && h' in pool.held && h != h'
    ensures Apart(h.objPv, h.slotSize, h'.objPv, h'.slotSize)
  {
    assert pool.held[h] in pool.Abs().live && pool.held[h'] in pool.Abs().live;
    LiveApart(pool.shapes, pool.Abs(), pool.held[h], pool.held[h']);
  }

  lemma Extended<K, V>(m: map<K, V>, k: K, v: V)
    requires k !in m
    ensures m[k := v].Values == m.Values + {v}
  {
    var m' := m[k := v];
    assert m'[k] == v;
    forall x | x in m.Values
      ensures x in m'.Values
    {
      var y :| y in m && m[y] == x;
      assert m'[y] == x;
    }
  }

  lemma Removed<K, V>(m: map<K, V>, k: K)
    requires k in m && forall x, y | x in m && y in m && m[x] == m[y] :: x == y
    ensures (m - {k}).Values == m.Values - {m[k]}
  {
    var m' := m - {k};
    forall v | v in m.Values && v != m[k]
      ensures v in m'.Values
    {
      var x :| x in m && m[x] == v;
      assert m'[x] == v;
    }
  }

  /** What Get computes from a size names a slot, which is there exactly when the size is reached; where its pages
      hold an object its shape is the one computed. */
  lemma GetLookup(cfg: Config, size: nat, kind: MemObjectType, slotSize: nat)
    requires cfg.Valid() && cfg.Served(size)
    requires kind == if size <= cfg.tinyThreshold then Tiny else if cfg.bigThreshold < size then Big else Small
    requires slotSize == match kind
      case Tiny => cfg.tinyThreshold
      case Small => Roundup(size, SMALL_FOOTSTEP_EXPONENT)
      case Big => Roundup(size, cfg.pageExp)
    ensures var k := KeyOf(cfg, kind, slotSize);
      && k == cfg.KeyFor(size) && (cfg.HasKey(k) <==> cfg.Reached(size))
      && (k in SlotShapes(cfg) ==>
            var sh := Shape(slotSize, OnePageBytes(cfg, kind, slotSize), ResidentCnt(cfg, kind), Trims);
            kind == KindOf(k) && slotSize >= size && SlotShapes(cfg)[k] == sh && sh.Ok())
  {
    KeyForFits(cfg, size);
    var k := cfg.KeyFor(size);
    if cfg.HasKey(k) {
      SlotRoundTrip(cfg, k);
    }
  }

  /** Where a size is reached it rounds to the least multiple of the footstep. */
  lemma LeastSlot(cfg: Config, size: nat)
    requires cfg.Valid() && cfg.Served(size)
    ensures cfg.Reached(size) && cfg.tinyThreshold < size <= cfg.bigThreshold ==>
      IsLeastMultiple(Roundup(size, SMALL_FOOTSTEP_EXPONENT), size, 32)
    ensures cfg.Reached(size) && cfg.tinyThreshold < size && cfg.bigThreshold < size ==>
      IsLeastMultiple(Roundup(size, cfg.pageExp), size, cfg.PageSize())
  {
    assert Pow2(5) == 32;
    hide Roundup, IsLeastMultiple, Pow2;
    if cfg.Reached(size) && cfg.tinyThreshold < size {
      if size <= cfg.bigThreshold {
        LastMultiple(cfg.bigThreshold, 5);
        RoundupLeast(size, 5);
      } else {
        LastMultiple(cfg.bulkThreshold, cfg.pageExp);
        RoundupLeast(size, cfg.pageExp);
      }
    }
  }
}
