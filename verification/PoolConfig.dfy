/** Thresholds, slots and the arithmetic that maps a requested size to a slot. */
module PoolConfig {
  import opened Arith
  import opened Rounding
  import opened Slabs
  import opened Pool

  const SMALL_FOOTSTEP_EXPONENT := 5
  const SMALL_FOOTSTEP := 32
  const EXPAND_OBJ_CNT_FACTOR := 32

  /** A slot: the one tiny slot, or a small or big slot by its index. */
  datatype SlotKey = TinyKey | SmallKey(idx: nat) | BigKey(idx: nat)

  datatype Config = Config(pageExp: nat, tinyThreshold: nat, bigThreshold: nat, bulkThreshold: nat,
                           tinyResident: nat, smallResident: nat, bigResident: nat)
  {
    function PageSize(): (n: nat)
      ensures n > 0
    {
      Pow2(pageExp)
    }

    /** The system's page size, and thresholds of 32 bits. */
    predicate Valid() {
      1 <= pageExp <= 31 && tinyThreshold < U32 && bigThreshold < U32 && bulkThreshold < U32
    }

    /** The slots the constructor creates. */
    function Keys(): (ks: set<SlotKey>)
      ensures forall k :: k in ks <==> HasKey(k)
    {
      {TinyKey}
      + (set i: nat | 1 <= i <= bigThreshold / SMALL_FOOTSTEP :: SmallKey(i))
      + (set i: nat | 1 <= i <= bulkThreshold / PageSize() :: BigKey(i))
    }

    predicate HasKey(k: SlotKey) {
      match k
      case TinyKey => true
      case SmallKey(i) => 1 <= i <= bigThreshold / SMALL_FOOTSTEP
      case BigKey(i) => 1 <= i <= bulkThreshold / PageSize()
    }

    /** The object size of a slot. */
    function SlotSize(k: SlotKey): (n: nat) {
      match k
      case TinyKey => tinyThreshold
      case SmallKey(i) => i * SMALL_FOOTSTEP
      case BigKey(i) => i * PageSize()
    }

    function ShapeOf(k: SlotKey): (sh: Shape) {
      match k
      case TinyKey => Shape(tinyThreshold, PageSize(), tinyResident, Trims)
      case SmallKey(_) =>
        Shape(SlotSize(k), ExpandPageSize(SlotSize(k), EXPAND_OBJ_CNT_FACTOR, PageSize()), smallResident, Trims)
      case BigKey(_) =>
        Shape(SlotSize(k), ExpandPageSize(SlotSize(k), EXPAND_OBJ_CNT_FACTOR, PageSize()), bigResident, Trims)
    }

    /** Sizes that go to the tiny, small and big levels; larger ones go to the bulk level. */
    predicate Served(size: nat) {
      0 < size && (size <= tinyThreshold || size <= bulkThreshold)
    }

    /** Sizes not above the last multiple of the footstep below their threshold: all that are served, if the
        thresholds are multiples of their footsteps. */
    predicate Reached(size: nat) {
      || size <= tinyThreshold
      || (bigThreshold < size <= bulkThreshold - bulkThreshold % PageSize())
      || size <= bigThreshold - bigThreshold % SMALL_FOOTSTEP
    }

    /** The slot that serves a request. */
    function KeyFor(size: nat): (k: SlotKey)
      requires Valid() && Served(size)
    {
      if size <= tinyThreshold then TinyKey
      else if bigThreshold < size then BigKey(SlotIdx(Roundup(size, pageExp), PageSize()))
      else SmallKey(SlotIdx(Roundup(size, SMALL_FOOTSTEP_EXPONENT), SMALL_FOOTSTEP))
    }
  }

  /** A configuration the pool can be built with; the default one is its example. */
  type GoodConfig = cfg: Config | cfg.Valid() witness DefaultConfig()

  function DefaultConfig(): (cfg: Config)
    ensures cfg.Valid() && cfg.PageSize() == 4096
  {
    assert Pow2(12) == 4096 by { Pow2Add(6, 6); }
    Config(12, 16, 4096, 131072, 512, 256, 128)
  }

  /** A request finds an existing slot exactly when its size is reached; then the slot's objects are large
      enough and waste less than one footstep. */
  lemma KeyForFits(cfg: Config, size: nat)
    requires cfg.Valid() && cfg.Served(size)
    ensures var k := cfg.KeyFor(size);
      && (cfg.HasKey(k) <==> cfg.Reached(size))
      && (cfg.HasKey(k) ==> size <= cfg.SlotSize(k))
      && (cfg.HasKey(k) && k.SmallKey? ==>
            cfg.SlotSize(k) < size + SMALL_FOOTSTEP && cfg.SlotSize(k) == Roundup(size, SMALL_FOOTSTEP_EXPONENT))
      && (cfg.HasKey(k) && k.BigKey? ==>
            cfg.SlotSize(k) < size + cfg.PageSize() && cfg.SlotSize(k) == Roundup(size, cfg.pageExp))
  {
    assert Pow2(5) == 32;
    if cfg.tinyThreshold < size {
      if cfg.bigThreshold < size {
        SlotReached(size, cfg.bulkThreshold, cfg.pageExp);
      } else {
        SlotReached(size, cfg.bigThreshold, 5);
      }
    }
  }

  /** A page holds an object: always in the tiny slot if its objects are no larger than a page, and in the
      others if 32 objects and a page do not exceed 2^32 bytes; then it is the fewest system pages that hold 32. */
  lemma ShapeOk(cfg: Config, k: SlotKey)
    requires cfg.Valid() && cfg.HasKey(k)
    ensures k.TinyKey? ==> (cfg.ShapeOf(k).Ok() <==> 0 < cfg.tinyThreshold <= cfg.PageSize())
    ensures !k.TinyKey? && cfg.SlotSize(k) * 32 + cfg.PageSize() <= U32 ==>
      var sh := cfg.ShapeOf(k);
      && sh.Ok() && sh.PerPage() >= 32 && sh.pageBytes % cfg.PageSize() == 0
      && cfg.SlotSize(k) * 32 <= sh.pageBytes < cfg.SlotSize(k) * 32 + cfg.PageSize()
  {
    if !k.TinyKey? && cfg.SlotSize(k) * EXPAND_OBJ_CNT_FACTOR + cfg.PageSize() <= U32 {
      SlotPositive(cfg, k);
      ExpandPageHolds(cfg.SlotSize(k), EXPAND_OBJ_CNT_FACTOR, cfg.PageSize());
    }
  }

  /** In the default configuration every size up to 128 KiB, and no other, is served, by an existing slot whose
      pages hold an object: up to 16 bytes tiny, up to a page small, the rest big. */
  lemma DefaultServes(size: nat)
    ensures DefaultConfig().Served(size) <==> 1 <= size <= 131072
    ensures 1 <= size <= 131072 ==>
      var cfg := DefaultConfig(); var k := cfg.KeyFor(size);
      && cfg.HasKey(k) && cfg.ShapeOf(k).Ok()
      && (k.TinyKey? <==> size <= 16) && (k.SmallKey? <==> 16 < size <= 4096)
      && (k.TinyKey? ==> cfg.SlotSize(k) == 16 && cfg.ShapeOf(k).resident == 512)
      && (k.SmallKey? ==> size <= cfg.SlotSize(k) < size + 32 && cfg.ShapeOf(k).resident == 256)
      && (k.BigKey? ==> size <= cfg.SlotSize(k) < size + 4096 && cfg.ShapeOf(k).resident == 128)
  {
    hide Roundup, ExpandPageSize;
    if 1 <= size <= 131072 {
      var cfg := DefaultConfig();
      KeyForFits(cfg, size);
      ShapeOk(cfg, cfg.KeyFor(size));
    }
  }

  lemma SlotPositive(cfg: Config, k: SlotKey)
    requires cfg.HasKey(k) && !k.TinyKey?
    ensures 0 < cfg.SlotSize(k)
  {
    if k.BigKey? {
      MulGe(k.idx, cfg.PageSize());
    }
  }

  /** Bytes, objects and residency of every slot the constructor creates whose pages hold an object. */
  function SlotShapes(cfg: Config): (shapes: Shapes<SlotKey>)
    requires cfg.Valid()
    ensures ShapesOk(shapes)
    ensures forall k :: k in shapes <==> cfg.HasKey(k) && cfg.ShapeOf(k).Ok()
  {
    map k | k in cfg.Keys() && cfg.ShapeOf(k).Ok() :: cfg.ShapeOf(k)
  }
}
