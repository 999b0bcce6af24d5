/** The manager that keeps one connection per logical peer, as three hash maps. */
module Manager {
  import opened Options

  /** Addresses: what a node listens on, and what a connection comes from. */
  datatype Peer = Endpoint(node: nat) | Ephemeral(conn: nat)

  /** A connection's event handler: its address, the logical endpoint of its peer and the real one.
      An initiator's real endpoint is the address it dialled, so equal to the logical one; an acceptor's
      is the address and port its peer came from. */
  datatype Handler<Ptr> = Handler(ptr: Ptr, logicPeer: Peer, realPeer: Peer)

  datatype Op<Ptr> = Put(h: Handler<Ptr>) | Finish(h: Handler<Ptr>) | Disconnect(p: Peer)

  // ----- the simple form: one map

  type Registry<Ptr> = map<Peer, Handler<Ptr>>

  /** First wins; a finished connection takes off what is registered under its two endpoints. */
  ghost function Apply<Ptr>(reg: Registry<Ptr>, op: Op<Ptr>): (r: Registry<Ptr>) {
    match op
    case Put(h) => if h.logicPeer in reg then reg else reg[h.logicPeer := h]
    case Finish(h) => if h.logicPeer in reg && reg[h.logicPeer].realPeer == h.realPeer then reg - {h.logicPeer} else reg
    case Disconnect(p) => reg - {p}
  }

  ghost function Run<Ptr>(reg: Registry<Ptr>, ops: seq<Op<Ptr>>): (r: Registry<Ptr>)
    decreases ops
  {
    if ops == [] then reg else Run(Apply(reg, ops[0]), ops[1..])
  }

  ghost predicate Registered<Ptr>(reg: Registry<Ptr>, h: Handler<Ptr>) {
    h.logicPeer in reg && reg[h.logicPeer] == h
  }

  ghost predicate Filed<Ptr>(reg: Registry<Ptr>) {
    forall p | p in reg :: reg[p].logicPeer == p
  }

  // ----- the maps as the code keeps them

  /** The handlers registered, by logical endpoint, and the logical endpoint of each real one that is known. */
  datatype Maps<Ptr> = Maps(workers: Registry<Ptr>, known: map<Peer, Peer>)

  /** What the code does. The end of a connection whose real endpoint is known forgets that endpoint and takes
      off whatever is registered for the logical one. */
  ghost function Do<Ptr>(m: Maps<Ptr>, op: Op<Ptr>): (r: Maps<Ptr>) {
    match op
    case Put(h) =>
      if h.logicPeer in m.workers then m
      else Maps(m.workers[h.logicPeer := h], m.known[h.realPeer := h.logicPeer])
    case Finish(h) =>
      if h.realPeer in m.known then Maps(m.workers - {h.logicPeer}, m.known - {h.realPeer}) else m
    case Disconnect(p) =>
      if p in m.workers then Maps(m.workers - {p}, m.known - {m.workers[p].realPeer}) else m
  }

  ghost function DoAll<Ptr>(m: Maps<Ptr>, ops: seq<Op<Ptr>>): (r: Maps<Ptr>)
    decreases ops
  {
    if ops == [] then m else DoAll(Do(m, ops[0]), ops[1..])
  }

  function Empty<Ptr>(): (m: Maps<Ptr>) {
    Maps(map[], map[])
  }

  /** Whether the end of a connection takes a handler off: its own or another. */
  ghost predicate Takes<Ptr>(m: Maps<Ptr>, h: Handler<Ptr>) {
    h.realPeer in m.known && h.logicPeer in m.workers
  }

  /** A real endpoint is known exactly when a registered handler has it, and leads to one that does. */
  ghost predicate Mirrored<Ptr>(m: Maps<Ptr>) {
    && (forall p | p in m.workers :: m.workers[p].realPeer in m.known)
    && (forall r | r in m.known :: m.known[r] in m.workers && m.workers[m.known[r]].realPeer == r)
  }

  /** The end of a connection takes no other off exactly when, with another registered for its logical
      endpoint, its real one is not known; while the maps agree, exactly when no handler at all is then
      registered with its real endpoint. */
  lemma FinishTakesOnlyItself<Ptr>(m: Maps<Ptr>, h: Handler<Ptr>)
    requires Filed(m.workers)
    ensures (forall g | g != h && Registered(m.workers, g) :: Registered(Do(m, Finish(h)).workers, g))
      <==> (h.logicPeer in m.workers && m.workers[h.logicPeer] != h ==> h.realPeer !in m.known)
    ensures Mirrored(m) ==>
      ((forall g | g != h && Registered(m.workers, g) :: Registered(Do(m, Finish(h)).workers, g))
       <==> (h.logicPeer in m.workers && m.workers[h.logicPeer] != h ==>
               forall p | p in m.workers :: m.workers[p].realPeer != h.realPeer))
  {
    var r := Do(m, Finish(h)).workers;
    if Takes(m, h) && m.workers[h.logicPeer] != h {
      assert Registered(m.workers, m.workers[h.logicPeer]) && !Registered(r, m.workers[h.logicPeer]);
    } else {
      assert forall g | g != h && Registered(m.workers, g) :: Registered(r, g);
    }
  }

  /** And a registered connection's own end takes it off exactly when its real endpoint is known, which it is
      while the maps agree. */
  lemma FinishTakesItself<Ptr>(m: Maps<Ptr>, h: Handler<Ptr>)
    requires Registered(m.workers, h)
    ensures !Registered(Do(m, Finish(h)).workers, h) <==> h.realPeer in m.known
    ensures Mirrored(m) ==> h.realPeer in m.known
  {
  }

  /** The operations that take a handler off: Disconnect from its peer, and the end of any connection to the
      same peer whose real endpoint is known. */
  ghost predicate Removes<Ptr>(m: Maps<Ptr>, op: Op<Ptr>, h: Handler<Ptr>) {
    match op
    case Put(_) => false
    case Finish(g) => g.logicPeer == h.logicPeer && g.realPeer in m.known
    case Disconnect(p) => p == h.logicPeer
  }

  /** Over any further run, a handler that is registered and not put again stays registered exactly as
      long as none of those operations comes: whoever comes second does not displace it, and no other
      logical peer's traffic touches it. */
  lemma {:induction false} StaysRegistered<Ptr>(m: Maps<Ptr>, ops: seq<Op<Ptr>>, h: Handler<Ptr>)
    requires Registered(m.workers, h) && Put(h) !in ops
    ensures Registered(DoAll(m, ops).workers, h)
      <==> forall i | 0 <= i < |ops| :: !Removes(DoAll(m, ops[..i]), ops[i], h)
    decreases ops
  {
    if ops != [] {
      var next, rest := Do(m, ops[0]), ops[1..];
      assert ops[..0] == [] && DoAll(m, ops[..0]) == m;
      forall i | 0 < i < |ops|
        ensures DoAll(m, ops[..i]) == DoAll(next, rest[..i - 1]) && ops[i] == rest[i - 1]
      {
        assert ops[..i][1..] == rest[..i - 1];
      }
      if Removes(m, ops[0], h) {
        StaysAway(next, rest, h);
      } else {
        StaysRegistered(next, rest, h);
      }
    }
  }

  lemma {:induction false} StaysAway<Ptr>(m: Maps<Ptr>, ops: seq<Op<Ptr>>, h: Handler<Ptr>)
    requires !Registered(m.workers, h) && Put(h) !in ops
    ensures !Registered(DoAll(m, ops).workers, h)
    decreases ops
  {
    if ops != [] {
      StaysAway(Do(m, ops[0]), ops[1..], h);
    }
  }

  // ----- when the maps are one map

  /** No handler registered for another peer has the same real endpoint. */
  ghost predicate Alone<Ptr>(reg: Registry<Ptr>, h: Handler<Ptr>) {
    forall p | p in reg && reg[p].realPeer == h.realPeer :: p == h.logicPeer
  }

  /** What an operation takes off shares its real endpoint with no other peer. */
  ghost predicate Fair<Ptr>(reg: Registry<Ptr>, op: Op<Ptr>) {
    match op
    case Put(_) => true
    case Finish(h) => Alone(reg, h)
    case Disconnect(p) => p in reg ==> Alone(reg, reg[p])
  }

  /** Maps that agree still agree after an operation exactly when it is fair, and then it did what it does to
      the one map. */
  lemma StepAgrees<Ptr>(m: Maps<Ptr>, op: Op<Ptr>)
    requires Filed(m.workers) && Mirrored(m)
    ensures Filed(Do(m, op).workers)
    ensures Mirrored(Do(m, op)) <==> Fair(m.workers, op)
    ensures Fair(m.workers, op) ==> Do(m, op).workers == Apply(m.workers, op)
  {
    match op {
      case Put(h) =>
      case Finish(h) => Forgotten(m, h);
      case Disconnect(p) =>
        if p in m.workers {
          Forgotten(m, m.workers[p]);
        } else {
          assert m.workers - {p} == m.workers;
        }
    }
  }

  lemma Forgotten<Ptr>(m: Maps<Ptr>, h: Handler<Ptr>)
    requires Filed(m.workers) && Mirrored(m)
    ensures h.realPeer in m.known ==>
      (Mirrored(Maps(m.workers - {h.logicPeer}, m.known - {h.realPeer})) <==> Alone(m.workers, h))
    ensures h.realPeer !in m.known ==> Alone(m.workers, h)
    ensures Alone(m.workers, h) ==>
      (h.realPeer in m.known <==> h.logicPeer in m.workers && m.workers[h.logicPeer].realPeer == h.realPeer)
  {
    if h.realPeer in m.known && !Alone(m.workers, h) {
      var p :| p in m.workers && m.workers[p].realPeer == h.realPeer && p != h.logicPeer;
      assert p in m.workers - {h.logicPeer};
    }
  }

  /** Over any run the maps agree throughout exactly when every operation is fair to what the one map then
      has; and then they hold what the one map holds. */
  lemma {:induction false} RunAgrees<Ptr>(m: Maps<Ptr>, ops: seq<Op<Ptr>>)
    requires Filed(m.workers) && Mirrored(m)
    ensures (forall i | 0 <= i <= |ops| :: Mirrored(DoAll(m, ops[..i])))
      <==> forall i | 0 <= i < |ops| :: Fair(Run(m.workers, ops[..i]), ops[i])
    ensures (forall i | 0 <= i < |ops| :: Fair(Run(m.workers, ops[..i]), ops[i])) ==>
      Mirrored(DoAll(m, ops)) && DoAll(m, ops).workers == Run(m.workers, ops)
    decreases ops
  {
    hide Mirrored, Fair, Do, Apply, Filed;
    assert ops[..0] == [] && DoAll(m, ops[..0]) == m && Run(m.workers, ops[..0]) == m.workers;
    if ops == [] {
      assert forall i | 0 <= i <= |ops| :: ops[..i] == [];
    } else {
      var next, rest := Do(m, ops[0]), ops[1..];
      StepAgrees(m, ops[0]);
      Unrolled(m, ops);
      if Fair(m.workers, ops[0]) {
        RunAgrees(next, rest);
        assert ops[..|ops|] == ops;
        assert forall i | 0 <= i <= |rest| :: DoAll(next, rest[..i]) == DoAll(m, ops[..i + 1]);
        assert forall i | 0 <= i < |rest| :: Run(next.workers, rest[..i]) == Run(m.workers, ops[..i + 1]);
      } else {
        assert !Mirrored(DoAll(m, ops[..1]));
      }
    }
  }

  lemma Unrolled<Ptr>(m: Maps<Ptr>, ops: seq<Op<Ptr>>)
    requires ops != []
    ensures forall i | 0 < i <= |ops| ::
      && DoAll(m, ops[..i]) == DoAll(Do(m, ops[0]), ops[1..][..i - 1])
      && Run(m.workers, ops[..i]) == Run(Apply(m.workers, ops[0]), ops[1..][..i - 1])
    ensures DoAll(Do(m, ops[0]), []) == Do(m, ops[0])
  {
    forall i | 0 < i <= |ops|
      ensures ops[..i][1..] == ops[1..][..i - 1] && ops[..i][0] == ops[0] && ops[..i] != []
    {
    }
  }

  /** Disconnect from a handler's peer, or the end of a connection with the same two endpoints. */
  ghost predicate Ends<Ptr>(op: Op<Ptr>, h: Handler<Ptr>) {
    match op
    case Put(_) => false
    case Finish(g) => g.logicPeer == h.logicPeer && g.realPeer == h.realPeer
    case Disconnect(p) => p == h.logicPeer
  }

  /** Over a run that is fair, a registered handler that is not put again stays registered exactly as long as
      neither of these comes. */
  lemma StaysWhereFair<Ptr>(m: Maps<Ptr>, ops: seq<Op<Ptr>>, h: Handler<Ptr>)
    requires Filed(m.workers) && Mirrored(m) && Registered(m.workers, h) && Put(h) !in ops
    requires forall i | 0 <= i < |ops| :: Fair(Run(m.workers, ops[..i]), ops[i])
    ensures Registered(DoAll(m, ops).workers, h) <==> forall op | op in ops :: !Ends(op, h)
  {
    RunAgrees(m, ops);
    StaysInOneMap(m.workers, ops, h, true);
  }

  lemma {:induction false} StaysInOneMap<Ptr>(reg: Registry<Ptr>, ops: seq<Op<Ptr>>, h: Handler<Ptr>, on: bool)
    requires Filed(reg) && Registered(reg, h) == on && Put(h) !in ops
    ensures Registered(Run(reg, ops), h) <==> on && forall op | op in ops :: !Ends(op, h)
    decreases ops
  {
    if ops != [] {
      assert ops[0] in ops;
      assert forall op | op in ops :: op == ops[0] || op in ops[1..];
      StaysInOneMap(Apply(reg, ops[0]), ops[1..], h, on && !Ends(ops[0], h));
    }
  }

  /** The handlers an operation is about. */
  ghost predicate About<Ptr>(op: Op<Ptr>, h: Handler<Ptr>) {
    op == Put(h) || op == Finish(h)
  }

  /** A real endpoint is always that of the same logical one. */
  ghost predicate Consistent<Ptr(!new)>(ops: seq<Op<Ptr>>) {
    forall h, g, i, j {:trigger About(ops[i], h), About(ops[j], g)} |
      0 <= i < |ops| && 0 <= j < |ops| && About(ops[i], h) && About(ops[j], g) && h.realPeer == g.realPeer ::
      h.logicPeer == g.logicPeer
  }

  /** What is registered was put. */
  lemma {:induction false} RunPuts<Ptr>(reg: Registry<Ptr>, ops: seq<Op<Ptr>>, p: Peer)
    requires p in Run(reg, ops)
    ensures (p in reg && reg[p] == Run(reg, ops)[p])
      || (exists i | 0 <= i < |ops| :: ops[i] == Put(Run(reg, ops)[p]) && Run(reg, ops)[p].logicPeer == p)
    decreases ops
  {
    if ops != [] {
      RunPuts(Apply(reg, ops[0]), ops[1..], p);
      assert forall i | 0 <= i < |ops| - 1 :: ops[1..][i] == ops[i + 1];
    }
  }

  /** Then every operation is fair. */
  lemma ConsistentFair<Ptr(!new)>(ops: seq<Op<Ptr>>, k: nat)
    requires Consistent(ops) && k < |ops|
    ensures Fair(Run(map[], ops[..k]), ops[k])
  {
    var reg := Run(map[], ops[..k]);
    forall p | p in reg
      ensures reg[p].logicPeer == p && exists i | 0 <= i < |ops| :: About(ops[i], reg[p])
    {
      RunPuts(map[], ops[..k], p);
      var i :| 0 <= i < k && ops[..k][i] == Put(reg[p]);
      assert About(ops[i], reg[p]);
    }
    if ops[k].Finish? {
      assert About(ops[k], ops[k].h);
    }
  }

  lemma {:induction false} DoAllJoined<Ptr>(m: Maps<Ptr>, a: seq<Op<Ptr>>, b: seq<Op<Ptr>>)
    ensures DoAll(m, a + b) == DoAll(DoAll(m, a), b)
    decreases a
  {
    if a == [] {
      assert a + b == b;
    } else {
      assert (a + b)[1..] == a[1..] + b;
      DoAllJoined(Do(m, a[0]), a[1..], b);
    }
  }

  // ----- runs that are not fair

  lemma DoAllSteps<Ptr>(m: Maps<Ptr>, ops: seq<Op<Ptr>>, op: Op<Ptr>)
    ensures DoAll(m, ops + [op]) == Do(DoAll(m, ops), op)
    ensures Run(m.workers, ops + [op]) == Apply(Run(m.workers, ops), op)
    decreases ops
  {
    if ops == [] {
      assert ops + [op] == [op] && [op][1..] == [];
    } else {
      assert (ops + [op])[1..] == ops[1..] + [op];
      DoAllSteps(Maps(Apply(m.workers, ops[0]), m.known), ops[1..], op);
      DoAllSteps(Do(m, ops[0]), ops[1..], op);
    }
  }

  lemma RunOf3<Ptr>(a: Op<Ptr>, b: Op<Ptr>, c: Op<Ptr>)
    ensures DoAll(Empty(), [a, b, c]) == Do(Do(Do(Empty(), a), b), c)
  {
    hide Do;
    var none: seq<Op<Ptr>> := [];
    DoAllSteps(Empty(), none, a);
    DoAllSteps(Empty(), [a], b);
    DoAllSteps(Empty(), [a, b], c);
    assert none + [a] == [a] && [a] + [b] == [a, b] && [a, b] + [c] == [a, b, c];
  }

  /** It does happen to initiators: dialled, disconnected and dialled again, the late end of the first
      connection takes the second one off. */
  lemma LateFinish(peer: Peer)
    ensures var first, second := Handler(0, peer, peer), Handler(1, peer, peer);
      var m := DoAll(Empty(), [Put(first), Disconnect(peer), Put(second)]);
      Mirrored(m) && Registered(m.workers, second) && !Registered(Do(m, Finish(first)).workers, second)
  {
    var first, second := Handler(0, peer, peer), Handler(1, peer, peer);
    Redialled(first, second);
  }

  /** Dialled, disconnected and dialled again, the second connection alone is registered. */
  lemma Redialled<Ptr>(h: Handler<Ptr>, g: Handler<Ptr>)
    requires h.logicPeer == g.logicPeer
    ensures DoAll(Empty(), [Put(h), Disconnect(h.logicPeer), Put(g)])
      == Maps(map[g.logicPeer := g], map[g.realPeer := g.logicPeer])
  {
    var p := h.logicPeer;
    assert Do(Do(Empty(), Put(h)), Disconnect(p)) == Empty() by {
      assert map[p := h] - {p} == map[] && map[h.realPeer := p] - {h.realPeer} == map[];
    }
    RunOf3(Put(h), Disconnect(p), Put(g));
  }

  /** And where a real endpoint is used again by another peer: the late end of a connection takes off one that
      has not its real endpoint, although the maps agreed. */
  lemma SharedFinish(peer: Peer, other: Peer, from: Peer)
    requires peer != other && from != peer
    ensures var late, dialled, second := Handler(0, peer, from), Handler(1, peer, peer), Handler(2, other, from);
      var m := DoAll(Empty(), [Put(late), Disconnect(peer), Put(dialled), Put(second)]);
      && Mirrored(m) && Registered(m.workers, dialled)
      && !Registered(Do(m, Finish(late)).workers, dialled)
      && Registered(Apply(m.workers, Finish(late)), dialled)
  {
    var late, dialled, second := Handler(0, peer, from), Handler(1, peer, peer), Handler(2, other, from);
    Redialled(late, dialled);
    DoAllSteps(Empty(), [Put(late), Disconnect(peer), Put(dialled)], Put(second));
    assert [Put(late), Disconnect(peer), Put(dialled)] + [Put(second)]
      == [Put(late), Disconnect(peer), Put(dialled), Put(second)];
    var m := DoAll(Empty(), [Put(late), Disconnect(peer), Put(dialled), Put(second)]);
    assert m.workers == map[peer := dialled, other := second];
    assert m.known == map[peer := peer, from := other];
  }

  /** Two connections with one real endpoint: the end of the first strands the second, whose own end no longer
      takes it off. */
  lemma Stranded(peer: Peer, other: Peer, from: Peer)
    requires peer != other
    ensures var first, second := Handler(0, peer, from), Handler(1, other, from);
      var m := DoAll(Empty(), [Put(first), Put(second), Finish(first)]);
      Registered(m.workers, second) && Registered(Do(m, Finish(second)).workers, second)
  {
    var first, second := Handler(0, peer, from), Handler(1, other, from);
    RunOf3(Put(first), Put(second), Finish(first));
  }

  // ----- the three maps

  /** Every handler registered is filed under its own logical endpoint, no two have the same address, and
      the real endpoint of each can be found. */
  ghost predicate Kept<Ptr>(workers: Registry<Ptr>, handlerToReal: map<Ptr, Peer>) {
    && Filed(workers)
    && (forall p | p in workers ::
          workers[p].ptr in handlerToReal && handlerToReal[workers[p].ptr] == workers[p].realPeer)
    && (forall p, q | p in workers && q in workers && workers[p].ptr == workers[q].ptr :: p == q)
  }

  /** The third map has no entry for a handler that is gone. */
  ghost predicate Tidy<Ptr>(workers: Registry<Ptr>, handlerToReal: map<Ptr, Peer>) {
    forall a | a in handlerToReal :: exists p :: p in workers && workers[p].ptr == a
  }

  /** Putting a handler and taking one off with its entry keep that; taking one off without does not. */
  lemma StaysTidy<Ptr>(workers: Registry<Ptr>, handlerToReal: map<Ptr, Peer>, h: Handler<Ptr>)
    requires Kept(workers, handlerToReal)
    ensures Tidy(workers, handlerToReal) && h.logicPeer !in workers ==>
      Tidy(workers[h.logicPeer := h], handlerToReal[h.ptr := h.realPeer])
    ensures h.logicPeer in workers && workers[h.logicPeer] == h ==>
      && (Tidy(workers, handlerToReal) ==> Tidy(workers - {h.logicPeer}, handlerToReal - {h.ptr}))
      && !Tidy(workers - {h.logicPeer}, handlerToReal)
  {
    if Tidy(workers, handlerToReal) && h.logicPeer !in workers {
      var more := workers[h.logicPeer := h];
      assert more[h.logicPeer].ptr == h.ptr;
      forall a | a in handlerToReal && a != h.ptr
        ensures exists p :: p in more && more[p].ptr == a
      {
        var p :| p in workers && workers[p].ptr == a;
        assert more[p].ptr == a;
      }
    }
    if Tidy(workers, handlerToReal) && h.logicPeer in workers && workers[h.logicPeer] == h {
      var left := workers - {h.logicPeer};
      forall a | a in handlerToReal - {h.ptr}
        ensures exists p :: p in left && left[p].ptr == a
      {
        var p :| p in workers && workers[p].ptr == a;
        assert left[p].ptr == a;
      }
    }
  }

  /** A handler that is put is at an address no other registered one has. */
  ghost predicate Fresh<Ptr>(reg: Registry<Ptr>, op: Op<Ptr>) {
    op.Put? ==> forall p | p in reg && reg[p].ptr == op.h.ptr :: reg[p] == op.h
  }

  class UniqueWorkerManager<Ptr(==)> {
    var workers: map<Peer, Handler<Ptr>>
    var realToLogic: map<Peer, Peer>
    var handlerToReal: map<Ptr, Peer>

    ghost predicate Valid()
      reads this
    {
      Kept(workers, handlerToReal)
    }

    ghost function Contents(): (m: Maps<Ptr>)
      reads this
    {
      Maps(workers, realToLogic)
    }

    constructor ()
      ensures Valid() && Contents() == Empty() && Tidy(workers, handlerToReal)
    {
      workers, realToLogic, handlerToReal := map[], map[], map[];
    }

    method GetWorkerEventHandler(p: Peer) returns (r: Option<Handler<Ptr>>)
      ensures r == if p in workers then Some(workers[p]) else None
    {
      if p in workers {
        return Some(workers[p]);
      }
      return None;
    }

    /** Registers a handler unless its logical peer has one. Entries left behind in the third map for
        handlers long gone do no harm, even where their address is used again. */
    method PutWorkerEventHandler(h: Handler<Ptr>) returns (ok: bool)
      requires Valid() && Fresh(workers, Put(h))
      modifies this
      ensures Valid() && Contents() == Do(old(Contents()), Put(h)) && ok == (h.logicPeer !in old(workers))
      ensures handlerToReal == if ok then old(handlerToReal)[h.ptr := h.realPeer] else old(handlerToReal)
      ensures old(Mirrored(Contents())) ==> Mirrored(Contents())
      ensures old(Tidy(workers, handlerToReal)) ==> Tidy(workers, handlerToReal)
    {
      hide Mirrored, Tidy;
      StaysTidy(workers, handlerToReal, h);
      var found := GetWorkerEventHandler(h.logicPeer);
      if old(Mirrored(Contents())) {
        StepAgrees(Contents(), Put(h));
      }
      if found.Some? {
        return false;
      }
      workers := workers[h.logicPeer := h];
      realToLogic := realToLogic[h.realPeer := h.logicPeer];
      handlerToReal := handlerToReal[h.ptr := h.realPeer];
      return true;
    }

    /** The removal a finished connection asks for, with its own two endpoints: some handler is taken off
        exactly when the real endpoint is known and the logical one has a handler. Maps that agree do so
        afterwards exactly when no handler registered for another peer has the same real endpoint, and then
        it took off what is registered with both endpoints. The handler's entry in the third map is left behind. */
    method RemoveFinished(h: Handler<Ptr>) returns (r: Option<Handler<Ptr>>)
      requires Valid()
      modifies this
      ensures Valid() && Contents() == Do(old(Contents()), Finish(h))
      ensures r == if old(Takes(Contents(), h)) then Some(old(workers)[h.logicPeer]) else None
      ensures old(Mirrored(Contents())) ==>
        (Mirrored(Contents()) <==> old(Alone(workers, h)))
        && (old(Alone(workers, h)) ==> workers == Apply(old(workers), Finish(h)))
      ensures handlerToReal == old(handlerToReal)
      ensures old(Tidy(workers, handlerToReal)) ==> (Tidy(workers, handlerToReal) <==> r.None?)
    {
      hide Mirrored, Alone, Tidy;
      if old(Mirrored(Contents())) {
        StepAgrees(Contents(), Finish(h));
      }
      if h.realPeer !in realToLogic {
        return None;
      }
      realToLogic := realToLogic - {h.realPeer};
      var found := GetWorkerEventHandler(h.logicPeer);
      if found.Some? {
        StaysTidy(workers, handlerToReal, found.value);
        workers := workers - {h.logicPeer};
        return found;
      } else {
        assert workers - {h.logicPeer} == workers;
        return None;
      }
    }

    /** The removal Disconnect asks for, with the logical endpoint alone. The maps agree afterwards exactly
        under the same condition. */
    method RemoveWorkerEventHandler(p: Peer) returns (r: Option<Handler<Ptr>>)
      requires Valid()
      modifies this
      ensures Valid() && Contents() == Do(old(Contents()), Disconnect(p))
      ensures r == if p in old(workers) then Some(old(workers)[p]) else None
      ensures old(Mirrored(Contents())) ==>
        (Mirrored(Contents()) <==> old(p in workers ==> Alone(workers, workers[p])))
      ensures handlerToReal == if r.Some? then old(handlerToReal) - {r.value.ptr} else old(handlerToReal)
      ensures old(Tidy(workers, handlerToReal)) ==> Tidy(workers, handlerToReal)
    {
      hide Mirrored, Alone, Tidy;
      if old(Mirrored(Contents())) {
        StepAgrees(Contents(), Disconnect(p));
      }
      var found := GetWorkerEventHandler(p);
      if found.Some? {
        StaysTidy(workers, handlerToReal, found.value);
        workers := workers - {p};
        var real' := handlerToReal[found.value.ptr];
        handlerToReal := handlerToReal - {found.value.ptr};
        realToLogic := realToLogic - {real'};
      }
      return found;
    }
  }

  /** Any run of the manager: its maps are those of the operations; and where a real endpoint is always that of
      the same logical one, they agree and hold what the one map holds. */
  method RunAll<Ptr(==,!new)>(ops: seq<Op<Ptr>>) returns (manager: UniqueWorkerManager<Ptr>)
    requires forall i | 0 <= i < |ops| :: Fresh(DoAll(Empty(), ops[..i]).workers, ops[i])
    ensures manager.Valid() && manager.Contents() == DoAll(Empty(), ops)
    ensures Consistent(ops) ==> Mirrored(manager.Contents()) && manager.workers == Run(map[], ops)
  {
    hide Consistent, Mirrored, Kept, Do;
    manager := new UniqueWorkerManager<Ptr>();
    for i := 0 to |ops|
      invariant manager.Valid() && fresh(manager) && manager.Contents() == DoAll(Empty(), ops[..i])
    {
      assert ops[..i + 1] == ops[..i] + [ops[i]];
      DoAllSteps(Empty(), ops[..i], ops[i]);
      match ops[i] {
        case Put(h) =>
          assert Fresh(manager.workers, ops[i]);
          var _ := manager.PutWorkerEventHandler(h);
        case Finish(h) =>
          var _ := manager.RemoveFinished(h);
        case Disconnect(p) =>
          var _ := manager.RemoveWorkerEventHandler(p);
      }
    }
    assert ops[..|ops|] == ops;
    if Consistent(ops) {
      RunConsistent(ops);
    }
  }

  lemma RunConsistent<Ptr(!new)>(ops: seq<Op<Ptr>>)
    requires Consistent(ops)
    ensures Mirrored(DoAll(Empty(), ops)) && DoAll(Empty(), ops).workers == Run(map[], ops)
  {
    forall i | 0 <= i < |ops|
      ensures Fair(Run(map[], ops[..i]), ops[i])
    {
      ConsistentFair(ops, i);
    }
    RunAgrees(Empty(), ops);
  }
}
