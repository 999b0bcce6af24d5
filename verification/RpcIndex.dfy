/** The synchronous RPC client's index of calls that wait: by message id, and by peer. */
module RpcIndex {
  import opened Options

  type Id = nat
  type Peer = nat

  /** A call: its context, its message id and its peer. */
  datatype Call = Call(ctx: nat, id: Id, peer: Peer)

  datatype Outcome = Answered | TimedOut | BrokenPipe

  ghost predicate Waits(byPeer: map<Peer, set<Call>>, c: Call) {
    c.peer in byPeer && c in byPeer[c.peer]
  }

  /** A call is under its id exactly when it is in its peer's set, and no peer has an empty set. */
  ghost predicate Indexed(byId: map<Id, Call>, byPeer: map<Peer, set<Call>>) {
    && (forall id | id in byId :: byId[id].id == id && Waits(byPeer, byId[id]))
    && (forall p | p in byPeer :: byPeer[p] != {})
    && (forall p, c | p in byPeer && c in byPeer[p] :: c.peer == p && c.id in byId && byId[c.id] == c)
  }

  ghost function CallsOf(byPeer: map<Peer, set<Call>>, p: Peer): (calls: set<Call>) {
    if p in byPeer then byPeer[p] else {}
  }

  /** A call may enter the indexes exactly when no other waits under its id; otherwise that one is left in
      its peer's set alone. */
  lemma AddIndexed(byId: map<Id, Call>, byPeer: map<Peer, set<Call>>, c: Call)
    requires Indexed(byId, byPeer) && (c.id in byId ==> byId[c.id] != c)
    ensures Indexed(byId[c.id := c], byPeer[c.peer := CallsOf(byPeer, c.peer) + {c}]) <==> c.id !in byId
  {
    var r := byPeer[c.peer := CallsOf(byPeer, c.peer) + {c}];
    if c.id !in byId {
      forall id | id in byId
        ensures Waits(r, byId[id])
      {
        assert Waits(byPeer, byId[id]);
      }
    } else {
      var o := byId[c.id];
      assert Waits(byPeer, o);
      assert o.peer in r && o in r[o.peer];
    }
  }

  lemma DropIndexed(byId: map<Id, Call>, byPeer: map<Peer, set<Call>>, id: Id, rest: set<Call>)
    requires Indexed(byId, byPeer) && id in byId && rest == CallsOf(byPeer, byId[id].peer) - {byId[id]}
    ensures var p := byId[id].peer;
      p in byPeer && Indexed(byId - {id}, if rest == {} then byPeer - {p} else byPeer[p := rest])
  {
    var c := byId[id];
    assert Waits(byPeer, c);
    var r := if rest == {} then byPeer - {c.peer} else byPeer[c.peer := rest];
    forall d | d in byId && d != id
      ensures Waits(r, byId[d])
    {
      assert Waits(byPeer, byId[d]);
      if byId[d].peer == c.peer {
        assert byId[d] in rest;
      }
    }
  }

  /** Dropping a peer with all its calls. */
  lemma DropPeer(byId: map<Id, Call>, byPeer: map<Peer, set<Call>>, p: Peer, left: map<Id, Call>)
    requires Indexed(byId, byPeer) && p in byPeer
    requires forall id :: id in left <==> id in byId && byId[id] !in byPeer[p]
    requires forall id | id in left :: left[id] == byId[id]
    ensures Indexed(left, byPeer - {p})
  {
    forall id | id in left
      ensures Waits(byPeer - {p}, left[id])
    {
      assert Waits(byPeer, byId[id]);
    }
  }

  /** Every call ever registered either waits under its id or has its one outcome; only calls with one
      particular id ever time out. */
  ghost predicate Accounted(byId: map<Id, Call>, outcomes: map<Call, Outcome>, registered: set<Call>, timed: Id) {
    && (forall id | id in byId :: byId[id].id == id && byId[id] in registered && byId[id] !in outcomes)
    && outcomes.Keys <= registered
    && (forall c | c in registered && c !in outcomes :: c.id in byId && byId[c.id] == c)
    && (forall c | c in outcomes && outcomes[c] == TimedOut :: c.id == timed)
  }

  /** A new call is none of those that wait, and may wait under an id none of them has. */
  lemma Entered(byId: map<Id, Call>, outcomes: map<Call, Outcome>, registered: set<Call>, timed: Id,
                c: Call, timed': Id)
    requires Accounted(byId, outcomes, registered, timed) && c !in registered
    requires timed' == timed || registered == {}
    ensures c.id in byId ==> byId[c.id] != c
    ensures c.id !in byId ==> Accounted(byId[c.id := c], outcomes, registered + {c}, timed')
  {
  }

  /** A call that waits, and only under the timed id if it times out, gets its outcome. */
  lemma Settled(byId: map<Id, Call>, outcomes: map<Call, Outcome>, registered: set<Call>, timed: Id,
                id: Id, outcome: Outcome)
    requires Accounted(byId, outcomes, registered, timed) && id in byId && (outcome == TimedOut ==> id == timed)
    ensures byId[id] !in outcomes
    ensures Accounted(byId - {id}, outcomes[byId[id] := outcome], registered, timed)
  {
  }

  class RpcClient {
    var byId: map<Id, Call>
    var byPeer: map<Peer, set<Call>>
    var outcomes: map<Call, Outcome>
    var called: bool
    var firstId: Id
    ghost var registered: set<Call>

    ghost predicate Valid()
      reads this
    {
      && Indexed(byId, byPeer) && Accounted(byId, outcomes, registered, firstId)
      && (called <==> registered != {})
    }

    constructor ()
      ensures Valid() && registered == {} && byId == map[] && outcomes == map[] && !called
    {
      byId, byPeer, outcomes, called, firstId, registered := map[], map[], map[], false, 0, {};
    }

    /** The first part of recvMessage. It keeps the indexes exactly when no other call waits under the
        same id. The timeout callback is a static local: the one the first call made, with the first
        call's id in it, serves all. */
    method Register(c: Call)
      requires Valid() && c !in registered
      modifies this
      ensures Valid() <==> c.id !in old(byId)
      ensures registered == old(registered) + {c} && outcomes == old(outcomes) && byId == old(byId)[c.id := c]
      ensures called && firstId == if old(called) then old(firstId) else c.id
    {
      hide Indexed, Accounted;
      Entered(byId, outcomes, registered, firstId, c, if called then firstId else c.id);
      AddIndexed(byId, byPeer, c);
      byId := byId[c.id := c];
      if c.peer !in byPeer {
        assert {} + {c} == {c};
        byPeer := byPeer[c.peer := {c}];
      } else {
        byPeer := byPeer[c.peer := byPeer[c.peer] + {c}];
      }
      if !called {
        called, firstId := true, c.id;
      }
      registered := registered + {c};
    }

    /** Takes a call out of both indexes. */
    method Complete(id: Id, outcome: Outcome)
      requires Valid() && id in byId && (outcome == TimedOut ==> id == firstId)
      modifies this
      ensures Valid() && registered == old(registered) && called == old(called) && firstId == old(firstId)
      ensures byId == old(byId) - {id} && outcomes == old(outcomes)[old(byId)[id] := outcome]
      ensures old(byId)[id] !in old(outcomes)
    {
      hide Indexed, Accounted;
      var c := byId[id];
      DropIndexed(byId, byPeer, id, CallsOf(byPeer, c.peer) - {c});
      Settled(byId, outcomes, registered, firstId, id, outcome);
      byId := byId - {id};
      byPeer := byPeer[c.peer := byPeer[c.peer] - {c}];
      if byPeer[c.peer] == {} {
        assert byPeer - {c.peer} == old(byPeer) - {c.peer};
        byPeer := byPeer - {c.peer};
      }
      outcomes := outcomes[c := outcome];
    }

    /** A response: completes the call it is for, if that waits. */
    method OnMessage(id: Id)
      requires Valid()
      modifies this
      ensures Valid() && registered == old(registered) && called == old(called) && firstId == old(firstId)
      ensures byId == old(byId) - {id}
      ensures outcomes == if id in old(byId) then old(outcomes)[old(byId)[id] := Answered] else old(outcomes)
    {
      if id !in byId {
        return;
      }
      Complete(id, Answered);
    }

    /** The timer of some call fires. Whichever it is, the call that waits under the first id ever used is
        completed, if there is one, and no other: so a call is completed by its own timer exactly when its
        id is that one. */
    method OnTimeout()
      requires Valid()
      modifies this
      ensures Valid() && registered == old(registered) && called == old(called) && firstId == old(firstId)
      ensures byId == old(byId) - {firstId}
      ensures outcomes == if firstId in old(byId) then old(outcomes)[old(byId)[firstId] := TimedOut] else old(outcomes)
      ensures forall id | id in old(byId) :: id !in byId <==> id == firstId
    {
      if firstId !in byId {
        return;
      }
      Complete(firstId, TimedOut);
    }

    /** A connection broke. Calls wait under the logical endpoint they were sent to; the notification carries
        the real one, and the calls under that are completed. So those of the peer are all completed exactly
        when the two endpoints are the same or none waits, and no others are exactly when the two are the same
        or none is completed. */
    method OnBroken(logic: Peer, from: Peer) returns (ghost broken: set<Call>)
      requires Valid()
      modifies this
      ensures Valid() && registered == old(registered) && called == old(called) && firstId == old(firstId)
      ensures forall c :: c in broken <==> c.id in old(byId) && old(byId)[c.id] == c && c.peer == from
      ensures byId == old(byId) - Ids(broken) && Broken(old(outcomes), outcomes, broken)
      ensures old(CallsOf(byPeer, logic)) <= broken <==> logic == from || old(CallsOf(byPeer, logic)) == {}
      ensures broken <= old(CallsOf(byPeer, logic)) <==> logic == from || broken == {}
    {
      hide Indexed, Accounted, Broken;
      PeerCalls(byId, byPeer, from);
      PeerCalls(byId, byPeer, logic);
      broken := CallsOf(byPeer, from);
      TwoPeers(CallsOf(byPeer, logic), logic, broken, from);
      if from !in byPeer {
        NoneBroken(byId, outcomes);
        return;
      }
      byId, outcomes := BreakAll(byPeer[from], byId, outcomes);
      DropPeer(old(byId), byPeer, from, byId);
      AllSettled(old(byId), old(outcomes), registered, firstId, broken, outcomes);
      byPeer := byPeer - {from};
    }
  }

  lemma TwoPeers(a: set<Call>, p: Peer, b: set<Call>, q: Peer)
    requires (forall c | c in a :: c.peer == p) && (forall c | c in b :: c.peer == q) && (p == q ==> a == b)
    ensures a <= b <==> p == q || a == {}
    ensures b <= a <==> p == q || b == {}
  {
    assert p != q ==> forall c | c in a :: c !in b;
  }

  /** All calls of a set that wait get the outcome of a broken connection. */
  lemma AllSettled(byId: map<Id, Call>, outcomes: map<Call, Outcome>, registered: set<Call>, timed: Id,
                   calls: set<Call>, after: map<Call, Outcome>)
    requires Accounted(byId, outcomes, registered, timed) && Broken(outcomes, after, calls)
    requires forall c | c in calls :: c.id in byId && byId[c.id] == c
    ensures Accounted(byId - Ids(calls), after, registered, timed)
  {
  }

  ghost function Ids(calls: set<Call>): (ids: set<Id>) {
    set c | c in calls :: c.id
  }

  /** The calls get the outcome of a broken connection, no other outcome changes. */
  ghost predicate Broken(before: map<Call, Outcome>, after: map<Call, Outcome>, calls: set<Call>) {
    && after.Keys == before.Keys + calls
    && (forall c | c in calls :: after[c] == BrokenPipe)
    && (forall c | c in before && c !in calls :: after[c] == before[c])
  }

  lemma NoneBroken(byId: map<Id, Call>, outcomes: map<Call, Outcome>)
    ensures byId - Ids({}) == byId && Broken(outcomes, outcomes, {})
  {
  }

  /** The calls in a peer's set are those under an id that have the peer. */
  lemma PeerCalls(byId: map<Id, Call>, byPeer: map<Peer, set<Call>>, p: Peer)
    requires Indexed(byId, byPeer)
    ensures forall c :: c in CallsOf(byPeer, p) <==> c.id in byId && byId[c.id] == c && c.peer == p
    ensures forall id | id in byId :: byId[id].id == id
    ensures p in byPeer ==> forall id :: id in Ids(byPeer[p]) <==> id in byId && byId[id] in byPeer[p]
  {
    forall c: Call | c.id in byId && byId[c.id] == c && c.peer == p
      ensures c in CallsOf(byPeer, p)
    {
      assert Waits(byPeer, byId[c.id]);
    }
  }

  /** The loop over a peer's calls. */
  method BreakAll(calls: set<Call>, byId: map<Id, Call>, outcomes: map<Call, Outcome>)
    returns (left: map<Id, Call>, done: map<Call, Outcome>)
    ensures left == byId - Ids(calls) && Broken(outcomes, done, calls)
  {
    left, done := byId, outcomes;
    var todo := calls;
    while todo != {}
      invariant todo <= calls && left == byId - Ids(calls - todo) && Broken(outcomes, done, calls - todo)
    {
      var c :| c in todo;
      left := left - {c.id};
      done := done[c := BrokenPipe];
      assert calls - (todo - {c}) == (calls - todo) + {c};
      OneMore(calls - todo, c);
      todo := todo - {c};
    }
    assert calls - {} == calls;
  }

  lemma OneMore(calls: set<Call>, c: Call)
    ensures Ids(calls + {c}) == Ids(calls) + {c.id}
  {
    assert c in calls + {c};
  }

  // ----- runs

  datatype Event = NewCall(c: Call) | Response(id: Id) | Timer | PeerBroken(logic: Peer, from: Peer)

  /** Message ids are used once. */
  ghost predicate IdsOnce(events: seq<Event>) {
    forall i, j | 0 <= i < j < |events| && events[i].NewCall? && events[j].NewCall? :: events[i].c.id != events[j].c.id
  }

  ghost function FirstCall(events: seq<Event>): (c: Option<Call>) {
    if events == [] then None
    else
      var before, last := FirstCall(events[..|events| - 1]), events[|events| - 1];
      if before.Some? then before else if last.NewCall? then Some(last.c) else None
  }

  ghost predicate Made(events: seq<Event>, calls: set<Call>) {
    forall c :: c in calls <==> NewCall(c) in events
  }

  /** A call of a run is new, and no call before it has its id. */
  lemma NotMade(events: seq<Event>, k: nat, calls: set<Call>)
    requires IdsOnce(events) && k < |events| && events[k].NewCall? && Made(events[..k], calls)
    ensures forall c | c in calls :: c.id != events[k].c.id
    ensures Made(events[..k + 1], calls + {events[k].c})
  {
    assert events[..k + 1] == events[..k] + [events[k]];
    forall c | c in calls
      ensures c.id != events[k].c.id
    {
      assert NewCall(c) in events[..k];
      var i :| 0 <= i < k && events[i] == NewCall(c);
    }
  }

  /** How a call has been completed, if it has: by the first, of what came after it, that is its answer, or the
      break of a connection with its peer's endpoint, or, if it is the first call ever made, any timeout. */
  ghost function Fate(events: seq<Event>, c: Call): (r: Option<Outcome>) {
    if events == [] || NewCall(c) !in events[..|events| - 1] then None
    else
      var before := events[..|events| - 1];
      if Fate(before, c).Some? then Fate(before, c)
      else
        match events[|events| - 1]
        case NewCall(_) => None
        case Response(id) => if id == c.id then Some(Answered) else None
        case Timer => if FirstCall(before) == Some(c) then Some(TimedOut) else None
        case PeerBroken(_, from) => if from == c.peer then Some(BrokenPipe) else None
  }

  ghost predicate Fates(events: seq<Event>, registered: set<Call>, outcomes: map<Call, Outcome>) {
    forall c | c in registered :: Fate(events, c) == if c in outcomes then Some(outcomes[c]) else None
  }

  lemma CallFates(events: seq<Event>, c: Call, registered: set<Call>, outcomes: map<Call, Outcome>)
    requires Made(events, registered) && Fates(events, registered, outcomes)
    requires c !in registered && outcomes.Keys <= registered
    ensures Fates(events + [NewCall(c)], registered + {c}, outcomes)
  {
    assert (events + [NewCall(c)])[..|events|] == events;
  }

  lemma AnswerFates(events: seq<Event>, id: Id, byId: map<Id, Call>, outcomes: map<Call, Outcome>,
                    registered: set<Call>, timed: Id)
    requires Made(events, registered) && Fates(events, registered, outcomes)
    requires Accounted(byId, outcomes, registered, timed)
    requires forall c, d | c in registered && d in registered && c.id == d.id :: c == d
    ensures Fates(events + [Response(id)], registered, if id in byId then outcomes[byId[id] := Answered] else outcomes)
  {
    assert (events + [Response(id)])[..|events|] == events;
  }

  lemma TimerFates(events: seq<Event>, byId: map<Id, Call>, outcomes: map<Call, Outcome>,
                   registered: set<Call>, timed: Id)
    requires Made(events, registered) && Fates(events, registered, outcomes)
    requires Accounted(byId, outcomes, registered, timed)
    requires forall c | c in registered :: c.id == timed <==> FirstCall(events) == Some(c)
    ensures Fates(events + [Timer], registered, if timed in byId then outcomes[byId[timed] := TimedOut] else outcomes)
  {
    assert (events + [Timer])[..|events|] == events;
  }

  lemma BrokenFates(events: seq<Event>, logic: Peer, from: Peer, byId: map<Id, Call>, outcomes: map<Call, Outcome>,
                    registered: set<Call>, timed: Id, broken: set<Call>, after: map<Call, Outcome>)
    requires Made(events, registered) && Fates(events, registered, outcomes)
    requires Accounted(byId, outcomes, registered, timed) && Broken(outcomes, after, broken)
    requires forall c :: c in broken <==> c.id in byId && byId[c.id] == c && c.peer == from
    ensures Fates(events + [PeerBroken(logic, from)], registered, after)
  {
    assert (events + [PeerBroken(logic, from)])[..|events|] == events;
  }

  /** In every run every call made either waits or has completed, once, by what came first for it; and only the
      first call ever made completes by timeout. */
  method Run(events: seq<Event>) returns (client: RpcClient)
    requires IdsOnce(events)
    ensures client.Valid() && Made(events, client.registered)
    ensures forall c | c in client.outcomes && client.outcomes[c] == TimedOut :: FirstCall(events) == Some(c)
    ensures forall c | NewCall(c) in events :: c in client.outcomes <==> Fate(events, c).Some?
    ensures forall c | c in client.outcomes :: Fate(events, c) == Some(client.outcomes[c])
  {
    hide Indexed, IdsOnce, Made, Fates, Broken;
    client := new RpcClient();
    NoneMade();
    for k := 0 to |events|
      invariant fresh(client) && client.Valid() && Made(events[..k], client.registered)
      invariant FirstCall(events[..k]).Some? <==> client.called
      invariant client.called ==>
        FirstCall(events[..k]).value in client.registered && FirstCall(events[..k]).value.id == client.firstId
      invariant forall c | c in client.registered && client.called && c.id == client.firstId ::
        FirstCall(events[..k]) == Some(c)
      invariant Fates(events[..k], client.registered, client.outcomes)
    {
      assert events[..k + 1][..k] == events[..k];
      assert events[..k + 1] == events[..k] + [events[k]];
      if events[k].NewCall? {
        NotMade(events, k, client.registered);
      } else {
        Unmade(events, k, client.registered);
      }
      match events[k] {
        case NewCall(c) =>
          CallFates(events[..k], c, client.registered, client.outcomes);
          client.Register(c);
        case Response(id) =>
          OwnIds(events, k, client.registered);
          AnswerFates(events[..k], id, client.byId, client.outcomes, client.registered, client.firstId);
          client.OnMessage(id);
        case Timer =>
          OwnIds(events, k, client.registered);
          TimerFates(events[..k], client.byId, client.outcomes, client.registered, client.firstId);
          client.OnTimeout();
        case PeerBroken(logic, from) =>
          ghost var byId, outcomes := client.byId, client.outcomes;
          ghost var broken := client.OnBroken(logic, from);
          BrokenFates(events[..k], logic, from, byId, outcomes, client.registered, client.firstId, broken,
                      client.outcomes);
      }
    }
    assert events[..|events|] == events;
    FateOfAll(events, client.registered, client.outcomes);
  }

  lemma OwnIds(events: seq<Event>, k: nat, calls: set<Call>)
    requires IdsOnce(events) && k <= |events| && Made(events[..k], calls)
    ensures forall c, d | c in calls && d in calls && c.id == d.id :: c == d
  {
    forall c, d | c in calls && d in calls && c.id == d.id
      ensures c == d
    {
      assert NewCall(c) in events[..k] && NewCall(d) in events[..k];
      var i, j :| 0 <= i < k && 0 <= j < k && events[i] == NewCall(c) && events[j] == NewCall(d);
    }
  }

  lemma FateOfAll(events: seq<Event>, registered: set<Call>, outcomes: map<Call, Outcome>)
    requires Made(events, registered) && Fates(events, registered, outcomes) && outcomes.Keys <= registered
    ensures forall c | NewCall(c) in events :: c in outcomes <==> Fate(events, c).Some?
    ensures forall c | c in outcomes :: Fate(events, c) == Some(outcomes[c])
  {
  }

  lemma NoneMade()
    ensures Made([], {}) && Fates([], {}, map[])
  {
  }

  lemma Unmade(events: seq<Event>, k: nat, calls: set<Call>)
    requires k < |events| && !events[k].NewCall? && Made(events[..k], calls)
    ensures Made(events[..k + 1], calls)
  {
    assert events[..k + 1] == events[..k] + [events[k]];
  }
}
