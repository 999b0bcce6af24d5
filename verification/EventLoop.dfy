/** The worker loop, the connection manager it reports to, and the reference counts that decide when a
    handler is destroyed. */
module EventLoop {
  import M = Manager

  type Id = nat

  /** A handler. Stored is the counter in memory; senders is how many senders hold a reference; owned says
      that it was given to the worker, orphan that its last reference went before that; face is what the
      manager knows of it. */
  datatype Handler = Handler(stored: int, senders: nat, owned: bool, orphan: bool, face: M.Handler<Id>)

  /** Where the loop is: before the wait, with the events waited for, dispatching those, dispatching the
      queued work, and past the destruction. */
  datatype Phase = Waiting | Fetched | Internal | External | Adding

  /** The manager's maps, and the worker: its three queues, what it has drained, and the driver's set of
      watched handlers. Waking are the handlers whose last reference was given up by a thread that has queued
      them for destruction and has yet to wake the worker, which it does through the handler. */
  datatype Loop = Loop(hs: map<Id, Handler>, maps: M.Maps<Id>, del: set<Id>, rw: seq<Id>, adds: seq<Id>,
                       watched: set<Id>, phase: Phase, dying: set<Id>, destroyed: set<Id>, events: seq<Id>,
                       work: seq<Id>, waking: set<Id>)

  ghost predicate Registered(s: Loop, h: Id)
    requires h in s.hs
  {
    M.Registered(s.maps.workers, s.hs[h].face)
  }

  /** The references to a handler: those of senders, and the manager's. */
  ghost function Held(s: Loop, h: Id): (n: nat)
    requires h in s.hs
  {
    s.hs[h].senders + if Registered(s, h) then 1 else 0
  }

  /** What can happen: a handshake registers a new handler, and then gives it to the worker or deletes it;
      senders take a reference, queue work and let go; a peer is disconnected; who gave up the last reference
      wakes the worker; the worker goes through its loop. Fails says that handling the event failed, so that
      the connection is finished. */
  datatype Step =
    | Open(h: Id, logic: M.Peer, from: M.Peer)
    | QueueAdd(h: Id)
    | Discard(h: Id)
    | Acquire(h: Id)
    | Post(h: Id)
    | ReleaseSender(h: Id)
    | Disconnect(p: M.Peer)
    | Wake(h: Id)
    | Wait(batch: seq<Id>)
    | DrainDel
    | Dispatch(fails: bool)
    | DrainRw
    | DispatchWork(fails: bool)
    | Destroy
    | DrainAdds

  ghost predicate Enabled(s: Loop, step: Step) {
    match step
    case Open(h, logic, _) => h !in s.hs && logic !in s.maps.workers
    case QueueAdd(h) => h in s.hs && !s.hs[h].owned
    case Discard(h) => h in s.hs && !s.hs[h].owned
    case Acquire(h) => h in s.hs && Registered(s, h)
    case Post(h) => h in s.hs && s.hs[h].senders > 0
    case ReleaseSender(h) => h in s.hs && s.hs[h].senders > 0
    case Disconnect(p) => p in s.maps.workers && s.maps.workers[p].ptr in s.hs
    case Wake(h) => h in s.waking
    case Wait(batch) => s.phase.Waiting? && forall h | h in batch :: h in s.watched
    case DrainDel => s.phase.Fetched?
    case Dispatch(_) => s.phase.Internal? && s.events != []
    case DrainRw => s.phase.Internal? && s.events == []
    case DispatchWork(_) => s.phase.External? && s.work != []
    case Destroy => s.phase.External? && s.work == []
    case DrainAdds => s.phase.Adding?
  }

  /** Release takes one off the counter and then reads it; as written, the read leaves only the lowest
      bit of the counter in memory. At zero the handler is queued for destruction. */
  ghost function Released(s: Loop, h: Id, masked: bool): (r: Loop)
    requires h in s.hs
  {
    var k := s.hs[h];
    var read := k.stored - 1;
    var orphan := k.orphan || (Held(s, h) == 0 && !k.owned);
    s.(hs := s.hs[h := k.(stored := if masked then read % 2 else read, orphan := orphan)],
       del := if read == 0 && k.owned then s.del + {h} else s.del)
  }

  /** Whether the end of a connection takes a handler off the registry: its own or another. */
  ghost predicate Takes(s: Loop, h: Id)
    requires h in s.hs
  {
    M.Takes(s.maps, s.hs[h].face)
  }

  /** on_finish: if the manager took any handler off, the one whose connection ended is released. */
  ghost function Finished(s: Loop, h: Id, masked: bool): (r: Loop) {
    if h !in s.hs then s
    else
      var r := s.(maps := M.Do(s.maps, M.Finish(s.hs[h].face)));
      if Takes(s, h) then Released(r, h, masked) else r
  }

  /** A reference given up by another thread than the worker's, which is woken after. */
  ghost function Given(s: Loop, h: Id, masked: bool): (r: Loop)
    requires h in s.hs
  {
    var r := Released(s, h, masked);
    if s.hs[h].stored == 1 && s.hs[h].owned then r.(waking := s.waking + {h}) else r
  }

  ghost function Next(s: Loop, step: Step, masked: bool): (r: Loop)
    requires Enabled(s, step)
  {
    match step
    case Open(h, logic, from) =>
      var f := M.Handler(h, logic, from);
      s.(hs := s.hs[h := Handler(1, 0, false, false, f)], maps := M.Do(s.maps, M.Put(f)))
    case QueueAdd(h) => s.(hs := s.hs[h := s.hs[h].(owned := true)], adds := s.adds + [h])
    case Discard(h) =>
      s.(hs := s.hs[h := s.hs[h].(owned := true, orphan := false)], destroyed := s.destroyed + {h})
    case Acquire(h) =>
      var k := s.hs[h];
      s.(hs := s.hs[h := k.(stored := k.stored + 1, senders := k.senders + 1)])
    case Post(h) => s.(rw := s.rw + [h])
    case ReleaseSender(h) =>
      Given(s.(hs := s.hs[h := s.hs[h].(senders := s.hs[h].senders - 1)]), h, masked)
    case Disconnect(p) =>
      Given(s.(maps := M.Do(s.maps, M.Disconnect(p))), s.maps.workers[p].ptr, masked)
    case Wake(h) => s.(waking := s.waking - {h})
    case Wait(batch) => s.(phase := Fetched, events := batch)
    case DrainDel => s.(phase := Internal, dying := s.del, del := {}, watched := s.watched - s.del)
    case Dispatch(fails) =>
      var h, r := s.events[0], s.(events := s.events[1..]);
      if fails && h !in s.dying then Finished(r, h, masked) else r
    case DrainRw => s.(phase := External, work := s.rw, rw := [])
    case DispatchWork(fails) =>
      var h, r := s.work[0], s.(work := s.work[1..]);
      if fails && h !in s.dying then Finished(r, h, masked) else r
    case Destroy => s.(phase := Adding, dying := {}, destroyed := s.destroyed + s.dying)
    case DrainAdds => s.(phase := Waiting, adds := [], watched := s.watched + set h | h in s.adds)
  }

  // ----- what must not happen

  ghost predicate Gone(s: Loop, h: Id) {
    h !in s.hs || h in s.destroyed
  }

  /** A step that touches a handler that was destroyed, destroys one again or one still referred to, or
      queues work for one that has no worker. */
  ghost predicate Harmful(s: Loop, step: Step)
    requires Enabled(s, step)
  {
    match step
    case QueueAdd(h) => Gone(s, h)
    case Discard(h) => Gone(s, h) || Held(s, h) > 0
    case Acquire(h) => Gone(s, h)
    case Post(h) => Gone(s, h) || !s.hs[h].owned
    case ReleaseSender(h) => Gone(s, h)
    case Disconnect(p) => Gone(s, s.maps.workers[p].ptr)
    case Wake(h) => Gone(s, h)
    case DrainDel => exists h | h in s.del :: Gone(s, h)
    case Dispatch(_) => s.events[0] !in s.dying && Gone(s, s.events[0])
    case DispatchWork(_) => s.work[0] !in s.dying && Gone(s, s.work[0])
    case Destroy => exists h | h in s.dying :: Gone(s, h) || Held(s, h) > 0
    case DrainAdds => exists h | h in s.adds :: Gone(s, h)
    case _ => false
  }

  /** A reference may be given up: not the last one while the add-event is still queued; and, with the
      counter read as written, none while three or more are held. */
  ghost predicate MayGive(s: Loop, h: Id, masked: bool)
    requires h in s.hs
  {
    && (Held(s, h) == 1 ==> h !in s.adds)
    && (masked ==> Held(s, h) <= 2)
  }

  /** With another connection registered for the same peer, this one's real endpoint is not known: exactly
      when its end takes no other off. */
  ghost predicate TakesOnlyItself(s: Loop, h: Id)
    requires h in s.hs
  {
    var f := s.hs[h].face;
    f.logicPeer in s.maps.workers && s.maps.workers[f.logicPeer] != f ==> f.realPeer !in s.maps.known
  }

  /** What has to be seen to: references are given up as above; a connection that ends takes no other off;
      work is queued only for a handler that has its worker; a handler is deleted by its handshake only if it
      is not registered; and none is destroyed before the worker was woken for it. */
  ghost predicate Careful(s: Loop, step: Step, masked: bool)
    requires Enabled(s, step)
  {
    match step
    case Discard(h) => Held(s, h) == 0
    case Post(h) => s.hs[h].owned
    case ReleaseSender(h) => MayGive(s, h, masked)
    case Disconnect(p) => MayGive(s, s.maps.workers[p].ptr, masked)
    case Destroy => s.dying !! s.waking
    case Dispatch(fails) => fails && s.events[0] !in s.dying ==> CarefulEnd(s, s.events[0], masked)
    case DispatchWork(fails) => fails && s.work[0] !in s.dying ==> CarefulEnd(s, s.work[0], masked)
    case _ => true
  }

  ghost predicate CarefulEnd(s: Loop, h: Id, masked: bool) {
    h in s.hs ==> TakesOnlyItself(s, h) && (Takes(s, h) ==> MayGive(s, h, masked))
  }

  // ----- what every careful step keeps

  ghost predicate Doomed(s: Loop, h: Id) {
    h in s.del || h in s.dying || h in s.destroyed
  }

  ghost predicate HandlerInv(s: Loop, h: Id) {
    && h in s.hs && s.hs[h].face.ptr == h
    && s.hs[h].stored == Held(s, h)
    && (Doomed(s, h) <==> Held(s, h) == 0 && !s.hs[h].orphan)
    && (s.hs[h].orphan ==> Held(s, h) == 0)
    && (Doomed(s, h) ==> s.hs[h].owned && h !in s.adds)
    && !(h in s.del && h in s.dying) && (h in s.destroyed ==> h !in s.del && h !in s.dying)
    && (h in s.dying ==> h !in s.watched && (s.phase.External? ==> h !in s.rw))
    && (h in s.destroyed ==> h !in s.watched && h !in s.rw && h !in s.events && h !in s.work)
    && (!s.hs[h].owned ==> h !in s.watched && h !in s.rw && h !in s.events && h !in s.work && h !in s.adds)
  }

  ghost predicate Inv(s: Loop) {
    && (forall h | h in s.hs || h in s.del || h in s.dying || h in s.destroyed || h in s.watched :: HandlerInv(s, h))
    && (forall h | h in s.rw || h in s.adds || h in s.events || h in s.work :: h in s.hs)
    && (forall p | p in s.maps.workers ::
          var f := s.maps.workers[p]; f.logicPeer == p && f.ptr in s.hs && s.hs[f.ptr].face == f)
    && (forall h | h in s.waking :: h in s.del || h in s.dying)
    && (s.phase.Internal? || s.phase.External? || s.dying == {})
    && (s.phase.Fetched? || s.phase.Internal? || s.events == [])
    && (s.phase.External? || s.work == [])
  }

  /** Under the invariant no careful step does harm. */
  lemma Harmless(s: Loop, step: Step, masked: bool)
    requires Inv(s) && Enabled(s, step) && Careful(s, step, masked)
    ensures !Harmful(s, step)
  {
    if step.Disconnect? {
      assert HandlerInv(s, s.maps.workers[step.p].ptr);
    } else if step.Wake? {
      assert HandlerInv(s, step.h);
    }
  }

  /** One more reference given up by a handler, by a sender or with a change of the registry. */
  lemma ReleasedKeeps(s: Loop, t: Loop, h: Id, masked: bool)
    requires Inv(s) && h in s.hs && MayGive(s, h, masked)
    requires t.hs.Keys == s.hs.Keys && (forall g | g in s.hs && g != h :: t.hs[g] == s.hs[g])
    requires t == s.(hs := t.hs, maps := t.maps)
    requires t.hs[h].(senders := s.hs[h].senders) == s.hs[h]
    requires forall p | p in t.maps.workers :: p in s.maps.workers && t.maps.workers[p] == s.maps.workers[p]
    requires forall p | p in s.maps.workers && p !in t.maps.workers :: s.maps.workers[p].ptr == h
    requires Held(t, h) == Held(s, h) - 1
    ensures Inv(Released(t, h, masked))
  {
    var r := Released(t, h, masked);
    forall g | g in r.hs || g in r.del || g in r.dying || g in r.destroyed || g in r.watched
      ensures HandlerInv(r, g)
    {
      assert HandlerInv(s, g);
      if g != h {
        assert Held(r, g) == Held(s, g);
      }
    }
  }

  lemma GivenKeeps(t: Loop, h: Id, masked: bool)
    requires h in t.hs && Inv(Released(t, h, masked))
    ensures Inv(Given(t, h, masked))
  {
    var r, g := Released(t, h, masked), Given(t, h, masked);
    forall k | k in g.hs || k in g.del || k in g.dying || k in g.destroyed || k in g.watched
      ensures HandlerInv(g, k)
    {
      assert HandlerInv(r, k);
    }
  }

  /** That a real endpoint is no longer known does not matter to the handlers. */
  lemma ForgottenKeeps(s: Loop, t: Loop)
    requires Inv(s) && t == s.(maps := t.maps) && t.maps.workers == s.maps.workers
    ensures Inv(t)
  {
    forall g | g in t.hs || g in t.del || g in t.dying || g in t.destroyed || g in t.watched
      ensures HandlerInv(t, g)
    {
      assert HandlerInv(s, g);
    }
  }

  /** The end of a connection, by a worker that is careful. */
  lemma EndKeeps(s: Loop, h: Id, masked: bool)
    requires Inv(s) && CarefulEnd(s, h, masked)
    ensures Inv(Finished(s, h, masked))
  {
    if h in s.hs {
      var t := s.(maps := M.Do(s.maps, M.Finish(s.hs[h].face)));
      if Takes(s, h) {
        assert Held(t, h) == Held(s, h) - 1;
        ReleasedKeeps(s, t, h, masked);
      } else {
        assert t.maps.workers == s.maps.workers;
        ForgottenKeeps(s, t);
      }
    }
  }

  lemma Keeps(s: Loop, step: Step, masked: bool)
    requires Inv(s) && Enabled(s, step) && Careful(s, step, masked)
    ensures Inv(Next(s, step, masked))
  {
    hide Inv, Next;
    match step {
      case Open(_, _, _) => OpenKeeps(s, step, masked);
      case QueueAdd(_) => OwningKeeps(s, step, masked);
      case Discard(_) => OwningKeeps(s, step, masked);
      case Acquire(_) => SendingKeeps(s, step, masked);
      case Post(_) => SendingKeeps(s, step, masked);
      case ReleaseSender(h) => SenderKeeps(s, h, masked);
      case Disconnect(p) => DisconnectKeeps(s, p, masked);
      case Dispatch(_) => DispatchKeeps(s, step, masked);
      case DispatchWork(_) => DispatchKeeps(s, step, masked);
      case _ => WorkerKeeps(s, step, masked);
    }
  }

  lemma SenderKeeps(s: Loop, h: Id, masked: bool)
    requires Inv(s) && Enabled(s, ReleaseSender(h)) && MayGive(s, h, masked)
    ensures Inv(Next(s, ReleaseSender(h), masked))
  {
    hide Inv, Released, Given;
    var t := s.(hs := s.hs[h := s.hs[h].(senders := s.hs[h].senders - 1)]);
    assert Held(t, h) == Held(s, h) - 1;
    ReleasedKeeps(s, t, h, masked);
    GivenKeeps(t, h, masked);
  }

  lemma DisconnectKeeps(s: Loop, p: M.Peer, masked: bool)
    requires Inv(s) && Enabled(s, Disconnect(p)) && MayGive(s, s.maps.workers[p].ptr, masked)
    ensures Inv(Next(s, Disconnect(p), masked))
  {
    var h := s.maps.workers[p].ptr;
    var t := s.(maps := M.Do(s.maps, M.Disconnect(p)));
    assert s.hs[h].face == s.maps.workers[p] && s.maps.workers[p].logicPeer == p;
    assert Held(t, h) == Held(s, h) - 1;
    ReleasedKeeps(s, t, h, masked);
    GivenKeeps(t, h, masked);
  }

  lemma OpenKeeps(s: Loop, step: Step, masked: bool)
    requires Inv(s) && Enabled(s, step) && step.Open?
    ensures Inv(Next(s, step, masked))
  {
    var r := Next(s, step, masked);
    forall h | h in r.hs || h in r.del || h in r.dying || h in r.destroyed || h in r.watched
      ensures HandlerInv(r, h)
    {
      if h in s.hs {
        assert HandlerInv(s, h);
        assert Registered(r, h) == Registered(s, h);
      }
    }
  }

  lemma SendingKeeps(s: Loop, step: Step, masked: bool)
    requires Inv(s) && Enabled(s, step) && Careful(s, step, masked) && (step.Acquire? || step.Post?)
    ensures Inv(Next(s, step, masked))
  {
    var r := Next(s, step, masked);
    forall h | h in r.hs || h in r.del || h in r.dying || h in r.destroyed || h in r.watched
      ensures HandlerInv(r, h)
    {
      assert HandlerInv(s, h);
      assert Registered(r, h) == Registered(s, h);
    }
  }

  lemma OwningKeeps(s: Loop, step: Step, masked: bool)
    requires Inv(s) && Enabled(s, step) && Careful(s, step, masked) && (step.QueueAdd? || step.Discard?)
    ensures Inv(Next(s, step, masked))
  {
    var r := Next(s, step, masked);
    forall h | h in r.hs || h in r.del || h in r.dying || h in r.destroyed || h in r.watched
      ensures HandlerInv(r, h)
    {
      assert HandlerInv(s, h);
      assert Registered(r, h) == Registered(s, h);
    }
  }

  lemma WorkerKeeps(s: Loop, step: Step, masked: bool)
    requires Inv(s) && Enabled(s, step)
    requires Careful(s, step, masked)
    requires step.Wake? || step.Wait? || step.DrainDel? || step.DrainRw? || step.Destroy? || step.DrainAdds?
    ensures Inv(Next(s, step, masked))
  {
    var r := Next(s, step, masked);
    forall h | h in r.hs || h in r.del || h in r.dying || h in r.destroyed || h in r.watched
      ensures HandlerInv(r, h)
    {
      assert HandlerInv(s, h);
    }
  }

  lemma DequeuedKeeps(s: Loop, t: Loop)
    requires Inv(s) && (s.phase.Internal? || s.phase.External?)
    requires (s.events != [] && t == s.(events := s.events[1..])) || (s.work != [] && t == s.(work := s.work[1..]))
    ensures Inv(t)
  {
    forall g | g in t.hs || g in t.del || g in t.dying || g in t.destroyed || g in t.watched
      ensures HandlerInv(t, g)
    {
      assert HandlerInv(s, g);
    }
  }

  lemma DispatchKeeps(s: Loop, step: Step, masked: bool)
    requires Inv(s) && Enabled(s, step) && Careful(s, step, masked) && (step.Dispatch? || step.DispatchWork?)
    ensures Inv(Next(s, step, masked))
  {
    hide Inv;
    var h := if step.Dispatch? then s.events[0] else s.work[0];
    var t := if step.Dispatch? then s.(events := s.events[1..]) else s.(work := s.work[1..]);
    DequeuedKeeps(s, t);
    if step.fails && h !in s.dying {
      EndKeeps(t, h, masked);
    }
  }

  /** A new worker, and a manager with nothing registered. */
  const START := Loop(map[], M.Empty(), {}, [], [], {}, Waiting, {}, {}, [], [], {})

  /** A run: every step can be taken, and care is taken where that is asked for. */
  ghost predicate Runs(s: Loop, steps: seq<Step>, masked: bool, careful: bool, end: Loop)
    decreases steps
  {
    if steps == [] then s == end
    else
      && Enabled(s, steps[0]) && (careful ==> Careful(s, steps[0], masked))
      && Runs(Next(s, steps[0], masked), steps[1..], masked, careful, end)
  }

  /** In every careful run, under every interleaving of senders, disconnects, ends of connections and the
      worker, no step touches a destroyed handler, destroys one twice or one still held, or queues work for
      one without a worker; and a handler whose references are all gone is at every moment in exactly one
      place: the delete queue, the hands of the worker, or destroyed. */
  lemma {:induction false} RunsSafe(s: Loop, steps: seq<Step>, masked: bool, end: Loop, step: Step, h: Id)
    requires Inv(s) && Runs(s, steps, masked, true, end)
    ensures Inv(end) && (Enabled(end, step) && Careful(end, step, masked) ==> !Harmful(end, step))
    ensures h in end.hs && Held(end, h) == 0 && !end.hs[h].orphan ==> Places(end, h) == 1
    ensures h in end.hs && Held(end, h) > 0 ==> Places(end, h) == 0
    decreases steps
  {
    hide Inv, Next, Enabled, Harmful, HandlerInv, Careful;
    if steps == [] {
      if h in end.hs {
        InvPlaces(end, h);
      }
      if Enabled(end, step) && Careful(end, step, masked) {
        Harmless(end, step, masked);
      }
    } else {
      Keeps(s, steps[0], masked);
      RunsSafe(Next(s, steps[0], masked), steps[1..], masked, end, step, h);
    }
  }

  ghost function Places(s: Loop, h: Id): (n: nat) {
    (if h in s.del then 1 else 0) + (if h in s.dying then 1 else 0) + if h in s.destroyed then 1 else 0
  }

  lemma InvPlaces(s: Loop, h: Id)
    requires Inv(s) && h in s.hs
    ensures Places(s, h) == if Held(s, h) == 0 && !s.hs[h].orphan then 1 else 0
  {
    assert HandlerInv(s, h);
  }

  lemma StartInv()
    ensures Inv(START)
  {
  }

  // ----- nothing is dropped

  /** What the worker has drained is there only in the phase that deals with it. */
  ghost predicate Phased(s: Loop) {
    && (s.phase.Internal? || s.phase.External? || s.dying == {})
    && (s.phase.Fetched? || s.phase.Internal? || s.events == [])
    && (s.phase.External? || s.work == [])
  }

  function PostOf(step: Step): (hs: seq<Id>) {
    if step.Post? then [step.h] else []
  }

  function BatchOf(step: Step): (hs: seq<Id>) {
    if step.Wait? then step.batch else []
  }

  function AddOf(step: Step): (hs: seq<Id>) {
    if step.QueueAdd? then [step.h] else []
  }

  /** The handlers a step of the worker processes: of the work, of the events, and those it begins to watch. */
  ghost function WorkOf(s: Loop, step: Step): (hs: seq<Id>)
    requires Enabled(s, step)
  {
    if step.DispatchWork? then [s.work[0]] else []
  }

  ghost function EventOf(s: Loop, step: Step): (hs: seq<Id>)
    requires Enabled(s, step)
  {
    if step.Dispatch? then [s.events[0]] else []
  }

  ghost function AddedOf(s: Loop, step: Step): (hs: seq<Id>) {
    if step.DrainAdds? then s.adds else []
  }

  /** What a step asks of the manager: to register a new handler, to disconnect a peer, or that the connection of
      a handler has ended, unless that one is about to be destroyed. */
  ghost function AskOf(s: Loop, step: Step): (ops: seq<M.Op<Id>>)
    requires Enabled(s, step)
  {
    match step
    case Open(h, logic, from) => [M.Put(M.Handler(h, logic, from))]
    case Disconnect(p) => [M.Disconnect(p)]
    case Dispatch(true) =>
      if s.events[0] in s.hs && s.events[0] !in s.dying then [M.Finish(s.hs[s.events[0]].face)] else []
    case DispatchWork(true) =>
      if s.work[0] in s.hs && s.work[0] !in s.dying then [M.Finish(s.hs[s.work[0]].face)] else []
    case _ => []
  }

  /** One more sender holds a handler, or one less. */
  function SenderOf(step: Step, h: Id): (n: int) {
    match step
    case Acquire(g) => if g == h then 1 else 0
    case ReleaseSender(g) => if g == h then -1 else 0
    case _ => 0
  }

  /** No step drops or repeats anything of the queues, and each does to the manager and to the senders' references
      what it says. */
  lemma StepConserves(s: Loop, step: Step, masked: bool)
    requires Phased(s) && Enabled(s, step)
    ensures var r := Next(s, step, masked);
      && Phased(r)
      && s.work + s.rw + PostOf(step) == WorkOf(s, step) + r.work + r.rw
      && s.events + BatchOf(step) == EventOf(s, step) + r.events
      && s.adds + AddOf(step) == AddedOf(s, step) + r.adds
      && r.maps == M.DoAll(s.maps, AskOf(s, step))
  {
    hide Next, Enabled;
    StepWork(s, step, masked);
    StepEvents(s, step, masked);
    StepAdds(s, step, masked);
    StepAsks(s, step, masked);
  }

  lemma StepWork(s: Loop, step: Step, masked: bool)
    requires Phased(s) && Enabled(s, step)
    ensures var r := Next(s, step, masked);
      && (r.phase.External? || r.work == [])
      && s.work + s.rw + PostOf(step) == WorkOf(s, step) + r.work + r.rw
  {
    hide M.Do, M.Takes, Held, PostOf, WorkOf;
    QueueFacts(s, step);
    var r := Next(s, step, masked);
    if step.DispatchWork? {
      assert r.work == s.work[1..] && r.rw == s.rw;
    } else if step.Post? {
      assert r.work == s.work && r.rw == s.rw + [step.h];
    } else if step.DrainRw? {
      assert r.work == s.rw && r.rw == [] && s.work == [];
    } else {
      assert r.work == s.work && r.rw == s.rw;
    }
  }

  /** The queues of work, step by step. */
  lemma QueueFacts(s: Loop, step: Step)
    requires Enabled(s, step)
    ensures step.DispatchWork? ==> s.work + s.rw + PostOf(step) == WorkOf(s, step) + s.work[1..] + s.rw
    ensures step.Post? ==> s.work + s.rw + PostOf(step) == WorkOf(s, step) + s.work + (s.rw + [step.h])
    ensures step.DrainRw? && s.work == [] ==> s.work + s.rw + PostOf(step) == WorkOf(s, step) + s.rw + []
    ensures !step.DispatchWork? && !step.Post? ==> s.work + s.rw + PostOf(step) == WorkOf(s, step) + s.work + s.rw
  {
  }


  lemma StepEvents(s: Loop, step: Step, masked: bool)
    requires Phased(s) && Enabled(s, step)
    ensures var r := Next(s, step, masked);
      && (r.phase.Internal? || r.phase.External? || r.dying == {})
      && (r.phase.Fetched? || r.phase.Internal? || r.events == [])
      && s.events + BatchOf(step) == EventOf(s, step) + r.events
  {
    hide M.Do;
    var r := Next(s, step, masked);
    if step.Dispatch? {
      assert r.events == s.events[1..] && s.events == [s.events[0]] + s.events[1..];
    } else if step.Wait? {
      assert r.events == step.batch && s.events == [];
    } else {
      assert r.events == s.events;
    }
  }

  lemma StepAdds(s: Loop, step: Step, masked: bool)
    requires Enabled(s, step)
    ensures s.adds + AddOf(step) == AddedOf(s, step) + Next(s, step, masked).adds
  {
    hide M.Do;
    var r := Next(s, step, masked);
    if step.DrainAdds? {
      assert r.adds == [];
    } else if step.QueueAdd? {
      assert r.adds == s.adds + [step.h];
    } else {
      assert r.adds == s.adds;
    }
  }

  lemma StepAsks(s: Loop, step: Step, masked: bool)
    requires Enabled(s, step)
    ensures Next(s, step, masked).maps == M.DoAll(s.maps, AskOf(s, step))
  {
    hide M.Do;
    AskOne(s.maps, AskOf(s, step));
  }

  lemma AskOne(m: M.Maps<Id>, ops: seq<M.Op<Id>>)
    requires |ops| <= 1
    ensures M.DoAll(m, ops) == if ops == [] then m else M.Do(m, ops[0])
  {
    if |ops| == 1 {
      assert ops[1..] == [];
    }
  }

  lemma StepSenders(s: Loop, step: Step, masked: bool, h: Id)
    requires Enabled(s, step) && h in s.hs
    ensures var r := Next(s, step, masked); h in r.hs && r.hs[h].senders == s.hs[h].senders + SenderOf(step, h)
  {
  }

  /** What a run did, step by step. */
  datatype Done = Done(posted: seq<Id>, worked: seq<Id>, waited: seq<Id>, dispatched: seq<Id>, queued: seq<Id>,
                       added: seq<Id>, asked: seq<M.Op<Id>>)

  ghost function DoneBy(s: Loop, steps: seq<Step>, masked: bool): (d: Done)
    decreases steps
  {
    if steps == [] || !Enabled(s, steps[0]) then Done([], [], [], [], [], [], [])
    else
      var d := DoneBy(Next(s, steps[0], masked), steps[1..], masked);
      Done(PostOf(steps[0]) + d.posted, WorkOf(s, steps[0]) + d.worked,
           BatchOf(steps[0]) + d.waited, EventOf(s, steps[0]) + d.dispatched,
           AddOf(steps[0]) + d.queued, AddedOf(s, steps[0]) + d.added, AskOf(s, steps[0]) + d.asked)
  }

  /** In every run, careful or not: the handlers work was queued for are, in order, those it was processed for and
      those still queued; those of the events waited for are those processed and those still to be; those to be
      added are those added and those still queued; and the manager's maps are those of what was asked of it. */
  lemma {:induction false} RunsConserve(s: Loop, steps: seq<Step>, masked: bool, careful: bool, end: Loop)
    requires Phased(s) && Runs(s, steps, masked, careful, end)
    ensures var d := DoneBy(s, steps, masked);
      && Phased(end)
      && s.work + s.rw + d.posted == d.worked + end.work + end.rw
      && s.events + d.waited == d.dispatched + end.events
      && s.adds + d.queued == d.added + end.adds
      && end.maps == M.DoAll(s.maps, d.asked)
    decreases steps
  {
    hide Next, Enabled, Phased, WorkOf, EventOf, AddedOf, AskOf, PostOf, BatchOf, AddOf;
    if steps != [] {
      var step, t := steps[0], Next(s, steps[0], masked);
      var d := DoneBy(t, steps[1..], masked);
      StepConserves(s, step, masked);
      RunsConserve(t, steps[1..], masked, careful, end);
      Chained(s.work + s.rw, PostOf(step), WorkOf(s, step), t.work + t.rw, d.posted, d.worked, end.work + end.rw);
      Chained(s.events, BatchOf(step), EventOf(s, step), t.events, d.waited, d.dispatched, end.events);
      Chained(s.adds, AddOf(step), AddedOf(s, step), t.adds, d.queued, d.added, end.adds);
      M.DoAllJoined(s.maps, AskOf(s, step), d.asked);
      Grouped(s.work, s.rw, PostOf(step) + d.posted, WorkOf(s, step) + d.worked, end.work, end.rw);
    } else {
      assert s.work + s.rw + [] == [] + s.work + s.rw && s.events + [] == [] + s.events && s.adds + [] == [] + s.adds;
    }
  }

  lemma Grouped(a: seq<Id>, b: seq<Id>, c: seq<Id>, d: seq<Id>, e: seq<Id>, f: seq<Id>)
    ensures a + b + c == d + e + f <==> (a + b) + c == d + (e + f)
  {
    assert d + e + f == d + (e + f);
  }

  /** What comes in goes out in order, step after step. */
  lemma Chained(q: seq<Id>, into: seq<Id>, out: seq<Id>, q': seq<Id>, into': seq<Id>, out': seq<Id>, q'': seq<Id>)
    requires q + into == out + q' && q' + into' == out' + q''
    ensures q + (into + into') == (out + out') + q''
  {
    assert q + (into + into') == (q + into) + into';
    assert (out + q') + into' == out + (q' + into');
    assert out + (out' + q'') == (out + out') + q'';
  }

  function SendersOf(steps: seq<Step>, h: Id): (n: int)
    decreases steps
  {
    if steps == [] then 0 else SenderOf(steps[0], h) + SendersOf(steps[1..], h)
  }

  /** And a handler is held by as many senders as took a reference and have not given it up. */
  lemma {:induction false} RunsSenders(s: Loop, steps: seq<Step>, masked: bool, careful: bool, end: Loop, h: Id)
    requires Runs(s, steps, masked, careful, end) && h in s.hs
    ensures h in end.hs && end.hs[h].senders == s.hs[h].senders + SendersOf(steps, h)
    decreases steps
  {
    hide Next, Enabled, SenderOf;
    if steps != [] {
      StepSenders(s, steps[0], masked, h);
      RunsSenders(Next(s, steps[0], masked), steps[1..], masked, careful, end, h);
    }
  }

  /** Every handler that was to be added is still queued, watched, or was taken for destruction since; and nothing
      else is watched. */
  lemma {:induction false} RunsWatch(s: Loop, steps: seq<Step>, masked: bool, careful: bool, end: Loop)
    requires Phased(s) && Runs(s, steps, masked, careful, end)
    ensures var d := DoneBy(s, steps, masked);
      && (forall h | h in d.added || h in s.watched || h in s.dying || h in s.destroyed ::
            h in end.watched || h in end.dying || h in end.destroyed)
      && (forall h | h in end.watched :: h in s.watched || h in d.added)
    decreases steps
  {
    hide Enabled, WorkOf, EventOf, AskOf, PostOf, BatchOf, AddOf;
    if steps != [] {
      StepConserves(s, steps[0], masked);
      StepWatches(s, steps[0], masked);
      hide Next;
      RunsWatch(Next(s, steps[0], masked), steps[1..], masked, careful, end);
    }
  }

  lemma StepWatches(s: Loop, step: Step, masked: bool)
    requires Phased(s) && Enabled(s, step)
    ensures var r := Next(s, step, masked);
      && (forall h | h in AddedOf(s, step) || h in s.watched || h in s.dying || h in s.destroyed ::
            h in r.watched || h in r.dying || h in r.destroyed)
      && (forall h | h in r.watched :: h in s.watched || h in AddedOf(s, step))
  {
  }

  // ----- the conditions are exact

  /** The counter in memory still tells the references after one is given up exactly when no more than
      two were held; read without the mask, always. */
  lemma CounterTracks(s: Loop, h: Id, masked: bool)
    requires h in s.hs && s.hs[h].senders > 0 && s.hs[h].stored == Held(s, h)
    ensures var r := Next(s, ReleaseSender(h), masked);
      r.hs[h].stored == Held(r, h) <==> !masked || Held(s, h) <= 2
  {
  }

  /** After the end of a connection the counters of all handlers still tell their references exactly when
      it took no other off. */
  lemma EndTracks(s: Loop, h: Id)
    requires Inv(s) && h in s.hs
    ensures var r := Finished(s, h, false);
      (forall g | g in s.hs :: g in r.hs && r.hs[g].stored == Held(r, g)) <==> TakesOnlyItself(s, h)
  {
    var r := Finished(s, h, false);
    assert HandlerInv(s, h);
    if TakesOnlyItself(s, h) {
      forall g | g in s.hs
        ensures r.hs[g].stored == Held(r, g)
      {
        assert HandlerInv(s, g);
      }
    } else {
      var g := s.maps.workers[s.hs[h].face.logicPeer].ptr;
      assert HandlerInv(s, g) && g != h;
      assert r.hs[g].stored == s.hs[g].stored && Held(r, g) == Held(s, g) - 1;
    }
  }

  /** Destroying what is queued leaves a thread to wake the worker through a destroyed handler exactly when one
      of those is still to be woken for. */
  lemma DestroyLeaves(s: Loop, masked: bool)
    requires Inv(s) && Enabled(s, Destroy)
    ensures (forall h | h in s.waking :: !Harmful(Next(s, Destroy, masked), Wake(h))) <==> s.dying !! s.waking
  {
    var r := Next(s, Destroy, masked);
    forall h | h in s.waking
      ensures Harmful(r, Wake(h)) <==> h in s.dying
    {
      assert HandlerInv(s, h);
    }
  }

  /** The last reference to a handler with a worker, given up by another thread, queues it for destruction, and the
      worker is then to be woken; nothing else is queued. */
  lemma LastGiven(s: Loop, step: Step, h: Id, masked: bool)
    requires Inv(s) && Enabled(s, step) && h in s.hs && MayGive(s, h, masked)
    requires step == ReleaseSender(h) || (step.Disconnect? && s.maps.workers[step.p].ptr == h)
    ensures var r := Next(s, step, masked); var last := Held(s, h) == 1 && s.hs[h].owned;
      && Held(r, h) == Held(s, h) - 1
      && r.del == (if last then s.del + {h} else s.del)
      && r.waking == (if last then s.waking + {h} else s.waking)
  {
    assert HandlerInv(s, h);
  }

  /** Queueing work does harm exactly when the handler has no worker yet, and deleting one after its
      handshake exactly when it is registered or a sender holds it. For these two steps that is nearly what
      harm and care are defined to be; what the invariant adds is that the handler is not destroyed. */
  lemma HarmBeforeWorker(s: Loop, h: Id)
    requires Inv(s) && h in s.hs
    ensures Enabled(s, Post(h)) ==> (Harmful(s, Post(h)) <==> !s.hs[h].owned)
    ensures Enabled(s, Discard(h)) ==> (Harmful(s, Discard(h)) <==> Held(s, h) > 0)
  {
    assert HandlerInv(s, h);
  }

  // ----- runs that are not careful

  /** A run of the code as written from the start. */
  ghost predicate Reaches(steps: seq<Step>, s: Loop) {
    Runs(START, steps, true, false, s)
  }

  lemma {:induction false} Ended(s: Loop, steps: seq<Step>, mid: Loop, last: Step)
    requires Runs(s, steps, true, false, mid) && Enabled(mid, last)
    ensures Runs(s, steps + [last], true, false, Next(mid, last, true))
    decreases steps
  {
    hide Next;
    if steps == [] {
      assert steps + [last] == [last] && [last][1..] == [];
    } else {
      Ended(Next(s, steps[0], true), steps[1..], mid, last);
      assert (steps + [last])[1..] == steps[1..] + [last];
    }
  }

  /** One step further. */
  lemma Extend(steps: seq<Step>, s: Loop, step: Step, t: Loop) returns (more: seq<Step>)
    requires Reaches(steps, s) && Enabled(s, step) && Next(s, step, true) == t
    ensures Reaches(more, t)
  {
    hide Next;
    Ended(START, steps, s, step);
    more := steps + [step];
  }

  const PEER := M.Endpoint(1)
  const OTHER := M.Endpoint(2)
  const FROM := M.Ephemeral(0)
  const AGAIN := M.Handler(1, PEER, PEER)

  /** Handler 0 is to the same peer, from an endpoint it dialled or its peer came from. */
  function Face(from: M.Peer): (f: M.Handler<Id>) {
    M.Handler(0, PEER, from)
  }

  /** With its reference count and senders, and given to the worker. */
  function Mine(from: M.Peer, stored: int, senders: nat): (k: Handler) {
    Handler(stored, senders, true, false, Face(from))
  }

  /** Handler 0 alone is registered. */
  function Mapped(from: M.Peer): (m: M.Maps<Id>) {
    M.Maps(map[PEER := Face(from)], map[from := PEER])
  }

  /** A worker that has only seen handler 0, between two turns of its loop. */
  function One(k: Handler, maps: M.Maps<Id>, del: set<Id>, adds: seq<Id>): (s: Loop) {
    Loop(map[0 := k], maps, del, [], adds, {}, Waiting, {}, {}, [], [], del)
  }

  /** Handler 0 is registered and its add-event queued. */
  lemma Opened(from: M.Peer) returns (steps: seq<Step>)
    ensures Reaches(steps, One(Mine(from, 1, 0), Mapped(from), {}, [0]))
  {
    hide Runs;
    var s := One(Handler(1, 0, false, false, Face(from)), Mapped(from), {}, []);
    RunsNone();
    steps := Extend([], START, Open(0, PEER, from), s);
    steps := Extend(steps, s, QueueAdd(0), One(Mine(from, 1, 0), Mapped(from), {}, [0]));
  }

  lemma RunsNone()
    ensures Runs(START, [], true, false, START)
  {
  }

  lemma Acquired(steps: seq<Step>, from: M.Peer, stored: int, senders: nat) returns (more: seq<Step>)
    requires Reaches(steps, One(Mine(from, stored, senders), Mapped(from), {}, [0]))
    ensures Reaches(more, One(Mine(from, stored + 1, senders + 1), Mapped(from), {}, [0]))
  {
    hide Runs;
    var s := One(Mine(from, stored, senders), Mapped(from), {}, [0]);
    more := Extend(steps, s, Acquire(0), One(Mine(from, stored + 1, senders + 1), Mapped(from), {}, [0]));
  }

  lemma LetGo(steps: seq<Step>, stored: int, senders: nat) returns (more: seq<Step>)
    requires senders > 0 && Reaches(steps, One(Mine(PEER, stored, senders), Mapped(PEER), {}, [0]))
    ensures Reaches(more, One(Mine(PEER, (stored - 1) % 2, senders - 1), Mapped(PEER),
                              if stored == 1 then {0} else {}, [0]))
  {
    hide Runs;
    var s := One(Mine(PEER, stored, senders), Mapped(PEER), {}, [0]);
    var t := One(Mine(PEER, (stored - 1) % 2, senders - 1), Mapped(PEER), if stored == 1 then {0} else {}, [0]);
    assert Next(s, ReleaseSender(0), true).hs == t.hs;
    more := Extend(steps, s, ReleaseSender(0), t);
  }

  /** A turn of the loop in which nothing happens, up to the destruction of what was queued. */
  lemma Turn(steps: seq<Step>, s: Loop) returns (more: seq<Step>)
    requires Reaches(steps, s) && s.phase == Waiting && s.rw == [] && s.events == [] && s.work == []
    ensures Reaches(more, s.(phase := External, dying := s.del, del := {}, watched := s.watched - s.del))
  {
    hide Runs;
    var s1 := s.(phase := Fetched);
    var s2 := s.(phase := Internal, dying := s.del, del := {}, watched := s.watched - s.del);
    more := Extend(steps, s, Wait([]), s1);
    more := Extend(more, s1, DrainDel, s2);
    more := Extend(more, s2, DrainRw, s2.(phase := External));
  }

  /** The rest of it, with nothing to destroy. */
  lemma Settled(steps: seq<Step>, s: Loop) returns (more: seq<Step>)
    requires Reaches(steps, s) && s.phase == External && s.work == [] && s.dying == {} && s.adds == [0]
    ensures Reaches(more, s.(phase := Waiting, adds := [], watched := s.watched + {0}))
  {
    hide Runs;
    assert (set h | h in s.adds) == {0};
    more := Extend(steps, s, Destroy, s.(phase := Adding));
    more := Extend(more, s.(phase := Adding), DrainAdds,
                   s.(phase := Waiting, adds := [], watched := s.watched + {0}));
  }

  /** With three references held, giving one up and taking another leads the worker to destroy a handler
      that is still held. */
  lemma ThirdReference() returns (steps: seq<Step>, end: Loop)
    ensures Reaches(steps, end) && Enabled(end, Destroy) && Harmful(end, Destroy)
  {
    hide Runs;
    steps := Opened(PEER);
    steps := Acquired(steps, PEER, 1, 0);
    steps := Acquired(steps, PEER, 2, 1);
    steps := LetGo(steps, 3, 2);
    steps := Acquired(steps, PEER, 0, 1);
    steps := LetGo(steps, 1, 2);
    var s := One(Mine(PEER, 0, 1), Mapped(PEER), {0}, [0]);
    steps := Turn(steps, s);
    end := s.(phase := External, dying := {0}, del := {}, watched := s.watched - s.del);
    assert 0 in end.dying && Held(end, 0) > 0;
  }

  lemma Disconnected(steps: seq<Step>, s: Loop) returns (more: seq<Step>)
    requires Reaches(steps, s) && s.hs == map[0 := Mine(PEER, 1, 0)] && s.maps == Mapped(PEER)
    requires s.del == {} && s.waking == {}
    ensures Reaches(more, s.(hs := map[0 := Mine(PEER, 0, 0)], maps := M.Empty(), del := {0}, waking := {0}))
  {
    hide Runs;
    var t := s.(hs := map[0 := Mine(PEER, 0, 0)], maps := M.Empty(), del := {0}, waking := {0});
    assert s.maps.workers - {PEER} == map[] && s.maps.known - {PEER} == map[];
    assert M.Do(s.maps, M.Disconnect(PEER)) == M.Empty();
    assert Next(s, Disconnect(PEER), true).hs == t.hs;
    more := Extend(steps, s, Disconnect(PEER), t);
  }

  /** With its add-event still queued, a handler is watched after it was destroyed. */
  lemma AddPending() returns (steps: seq<Step>, end: Loop)
    ensures Reaches(steps, end) && Enabled(end, DrainAdds) && Harmful(end, DrainAdds)
  {
    hide Runs;
    steps := Opened(PEER);
    steps := Disconnected(steps, One(Mine(PEER, 1, 0), Mapped(PEER), {}, [0]));
    var t := One(Mine(PEER, 0, 0), M.Empty(), {0}, [0]);
    steps := Extend(steps, t, Wake(0), t.(waking := {}));
    steps := Turn(steps, t.(waking := {}));
    var u := t.(phase := External, dying := {0}, del := {}, watched := t.watched - t.del, waking := {});
    end := Next(u, Destroy, true);
    steps := Extend(steps, u, Destroy, end);
    assert 0 in end.adds && Gone(end, 0);
  }

  /** Queued for destruction by a thread that is then slow to wake the worker, a handler is destroyed before
      that thread reads from it which worker to wake. */
  lemma LateWake() returns (steps: seq<Step>, end: Loop)
    ensures Reaches(steps, end) && Enabled(end, Wake(0)) && Harmful(end, Wake(0))
  {
    hide Runs;
    steps := Opened(PEER);
    var s := One(Mine(PEER, 1, 0), Mapped(PEER), {}, [0]);
    steps := Turn(steps, s);
    assert s.watched - s.del == {};
    steps := Settled(steps, s.(phase := External));
    var t := s.(adds := [], watched := s.watched + {0});
    steps := Disconnected(steps, t);
    var u := t.(hs := map[0 := Mine(PEER, 0, 0)], maps := M.Empty(), del := {0}, waking := {0});
    steps := Turn(steps, u);
    var v := u.(phase := External, dying := {0}, del := {}, watched := u.watched - u.del);
    end := Next(v, Destroy, true);
    steps := Extend(steps, v, Destroy, end);
  }

  /** A sender that finds a handler before it has its worker queues work for none. */
  lemma EarlyPost() returns (steps: seq<Step>, end: Loop)
    ensures Reaches(steps, end) && Enabled(end, Post(0)) && Harmful(end, Post(0))
  {
    hide Runs;
    RunsNone();
    var s := One(Handler(1, 0, false, false, Face(PEER)), Mapped(PEER), {}, []);
    steps := Extend([], START, Open(0, PEER, PEER), s);
    end := Next(s, Acquire(0), true);
    steps := Extend(steps, s, Acquire(0), end);
  }

  /** A handshake that fails after it registered deletes a handler that can still be found. */
  lemma DiscardRegistered() returns (steps: seq<Step>, end: Loop)
    ensures Reaches(steps, end) && Enabled(end, Acquire(0)) && Harmful(end, Acquire(0))
  {
    hide Runs;
    RunsNone();
    var s := One(Handler(1, 0, false, false, Face(PEER)), Mapped(PEER), {}, []);
    steps := Extend([], START, Open(0, PEER, PEER), s);
    end := Next(s, Discard(0), true);
    steps := Extend(steps, s, Discard(0), end);
  }

  /** A worker with work queued for handler 0, whose peer was disconnected, and with other handlers. */
  ghost function Again(from: M.Peer, others: map<Id, Handler>, maps: M.Maps<Id>): (s: Loop) {
    Loop(others[0 := Mine(from, 1, 1)], maps, {}, [0], [0], {}, Waiting, {}, {}, [], [], {})
  }

  const FRESH := Handler(1, 0, false, false, AGAIN)

  /** One sender holds handler 0; its peer was disconnected and dialled again. */
  lemma Redialled(from: M.Peer) returns (steps: seq<Step>)
    ensures Reaches(steps, Again(from, map[1 := FRESH], M.Maps(map[PEER := AGAIN], map[PEER := PEER])))
  {
    hide Runs;
    steps := Opened(from);
    steps := Acquired(steps, from, 1, 0);
    var s := One(Mine(from, 2, 1), Mapped(from), {}, [0]);
    var s1 := s.(rw := [0]);
    steps := Extend(steps, s, Post(0), s1);
    var s2 := s1.(hs := map[0 := Mine(from, 1, 1)], maps := M.Empty());
    assert s1.maps.workers - {PEER} == map[] && s1.maps.known - {from} == map[];
    assert M.Do(s1.maps, M.Disconnect(PEER)) == M.Empty();
    assert Next(s1, Disconnect(PEER), true).hs == s2.hs;
    steps := Extend(steps, s1, Disconnect(PEER), s2);
    var s3 := Again(from, map[1 := FRESH], M.Maps(map[PEER := AGAIN], map[PEER := PEER]));
    assert Next(s2, Open(1, PEER, PEER), true).hs == s3.hs;
    steps := Extend(steps, s2, Open(1, PEER, PEER), s3);
  }

  /** The worker in the middle of its loop, after the end of that connection took another handler off. */
  ghost function EndTaken(from: M.Peer, others: map<Id, Handler>, maps: M.Maps<Id>): (s: Loop) {
    Loop(others[0 := Mine(from, 0, 1)], M.Do(maps, M.Finish(Face(from))),
         {0}, [], [0], {}, External, {}, {}, [], [], {})
  }

  lemma TakesEnd(steps: seq<Step>, from: M.Peer, others: map<Id, Handler>, maps: M.Maps<Id>)
    returns (more: seq<Step>)
    requires Reaches(steps, Again(from, others, maps))
    requires M.Takes(maps, Face(from)) && !M.Registered(maps.workers, Face(from))
    ensures Reaches(more, EndTaken(from, others, maps))
  {
    hide Runs;
    var s := Again(from, others, maps);
    more := Extend(steps, s, Wait([]), s.(phase := Fetched));
    var s2 := s.(phase := Internal);
    assert s.watched - s.del == {};
    more := Extend(more, s.(phase := Fetched), DrainDel, s2);
    var s3 := s2.(phase := External, rw := [], work := [0]);
    more := Extend(more, s2, DrainRw, s3);
    assert Next(s3, DispatchWork(true), true).hs == EndTaken(from, others, maps).hs;
    more := Extend(more, s3, DispatchWork(true), EndTaken(from, others, maps));
  }

  /** Handler 0 is then destroyed while the sender still holds it. */
  lemma EndsHeld(steps: seq<Step>, from: M.Peer, others: map<Id, Handler>, maps: M.Maps<Id>)
    returns (more: seq<Step>, end: Loop)
    requires Reaches(steps, Again(from, others, maps))
    requires M.Takes(maps, Face(from)) && !M.Registered(maps.workers, Face(from))
    ensures Reaches(more, end) && Enabled(end, Destroy) && Harmful(end, Destroy)
  {
    hide Runs;
    more := TakesEnd(steps, from, others, maps);
    var s := EndTaken(from, others, maps);
    more := Settled(more, s);
    var t := s.(phase := Waiting, adds := [], watched := s.watched + {0});
    more := Turn(more, t);
    end := t.(phase := External, dying := {0}, del := {}, watched := t.watched - t.del);
    assert 0 in end.dying && Held(end, 0) > 0;
  }

  /** That is so where the peer was dialled both times. */
  lemma LateEnd() returns (steps: seq<Step>, end: Loop)
    ensures Reaches(steps, end) && Enabled(end, Destroy) && Harmful(end, Destroy)
  {
    hide Runs;
    steps := Redialled(PEER);
    steps, end := EndsHeld(steps, PEER, map[1 := FRESH], M.Maps(map[PEER := AGAIN], map[PEER := PEER]));
  }

  /** And where the first connection came from an endpoint that another peer has come from since. */
  lemma SharedEnd() returns (steps: seq<Step>, end: Loop)
    ensures Reaches(steps, end) && Enabled(end, Destroy) && Harmful(end, Destroy)
  {
    hide Runs;
    steps := Redialled(FROM);
    var second := M.Handler(2, OTHER, FROM);
    var s := Again(FROM, map[1 := FRESH], M.Maps(map[PEER := AGAIN], map[PEER := PEER]));
    var others := map[1 := FRESH, 2 := Handler(1, 0, false, false, second)];
    var maps := M.Maps(map[PEER := AGAIN, OTHER := second], map[PEER := PEER, FROM := OTHER]);
    assert Next(s, Open(2, OTHER, FROM), true).hs == Again(FROM, others, maps).hs;
    steps := Extend(steps, s, Open(2, OTHER, FROM), Again(FROM, others, maps));
    steps, end := EndsHeld(steps, FROM, others, maps);
  }

  // ----- two releases at once

  /** Release is two atomic operations, the decrement and the read. */
  datatype CounterOp = Decrement | Read

  /** Every read follows a decrement of its own; pending decrements have not been read after. */
  ghost predicate Interleaved(ops: seq<CounterOp>, pending: nat) {
    ops == [] || match ops[0]
      case Decrement => Interleaved(ops[1..], pending + 1)
      case Read => pending > 0 && Interleaved(ops[1..], pending - 1)
  }

  function Decrements(ops: seq<CounterOp>): (n: nat) {
    if ops == [] then 0 else (if ops[0].Decrement? then 1 else 0) + Decrements(ops[1..])
  }

  /** How many of the reads find zero and so queue the handler for destruction. */
  function ZeroReads(stored: int, ops: seq<CounterOp>): (n: nat)
    decreases ops
  {
    if ops == [] then 0
    else match ops[0]
      case Decrement => ZeroReads(stored - 1, ops[1..])
      case Read => (if stored == 0 then 1 else 0) + ZeroReads(stored % 2, ops[1..])
  }

  /** How many reads come after the last decrement. */
  function ReadsAtEnd(ops: seq<CounterOp>): (n: nat) {
    if Decrements(ops) == 0 then |ops| else ReadsAtEnd(ops[1..])
  }

  /** When up to two references are all given up, in any interleaving, the handler is queued as often as
      there are reads after the last decrement: once exactly when the releases do not overlap there. */
  lemma {:induction false} QueuedPerRead(stored: nat, ops: seq<CounterOp>, pending: nat)
    requires stored <= 2 && Decrements(ops) == stored && Interleaved(ops, pending) && stored + pending <= 2
    ensures ZeroReads(stored, ops) == ReadsAtEnd(ops)
    decreases ops
  {
    if ops != [] {
      if ops[0].Decrement? {
        QueuedPerRead(stored - 1, ops[1..], pending + 1);
      } else {
        QueuedPerRead(stored, ops[1..], pending - 1);
      }
    }
  }

  /** References given up one after the other. */
  function Releases(n: nat): (ops: seq<CounterOp>) {
    if n == 0 then [] else [Decrement, Read] + Releases(n - 1)
  }

  /** Then the handler is queued once exactly when there were one, two or three of them: every second read finds
      zero, since a read keeps only the lowest bit. */
  lemma QueuedInTurn(n: nat)
    ensures ZeroReads(n, Releases(n)) == if n == 1 then 1 else n / 2
    ensures ZeroReads(n, Releases(n)) == 1 <==> 1 <= n <= 3
  {
    if n > 0 {
      TwoOps(n, n - 1);
      EverySecond(n - 1, (n - 1) % 2);
    }
  }

  lemma TwoOps(stored: int, n: nat)
    ensures ZeroReads(stored, [Decrement, Read] + Releases(n))
         == (if stored == 1 then 1 else 0) + ZeroReads((stored - 1) % 2, Releases(n))
  {
    var ops := [Decrement, Read] + Releases(n);
    assert ops[1..] == [Read] + Releases(n);
    assert ops[1..][1..] == Releases(n);
  }

  lemma {:induction false} EverySecond(n: nat, bit: nat)
    requires bit <= 1
    ensures ZeroReads(bit, Releases(n)) == (n + bit) / 2
  {
    if n > 0 {
      TwoOps(bit, n - 1);
      EverySecond(n - 1, 1 - bit);
    }
  }

  /** Two overlapping releases both queue the handler. */
  lemma OverlappingReleases()
    ensures ZeroReads(2, [Decrement, Decrement, Read, Read]) == 2
    ensures ZeroReads(2, [Decrement, Read, Decrement, Read]) == 1
  {
    assert [Decrement, Decrement, Read, Read][1..][1..] == [Read, Read] && [Read, Read][1..] == [Read];
    assert [Decrement, Read, Decrement, Read][1..][1..] == [Decrement, Read] && [Decrement, Read][1..] == [Read];
    assert ZeroReads(0, [Read]) == 1 && ZeroReads(0, [Read, Read]) == 2;
    assert ZeroReads(1, [Decrement, Read]) == 1;
  }
}
