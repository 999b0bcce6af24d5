/** The timer: events in order of time, a table of their ids, and the clock arithmetic they use. */
module Timers {

  const NANO := 1_000_000_000

  datatype Time = Time(sec: int, nsec: int) {
    predicate Normal() {
      0 <= sec && 0 <= nsec < NANO
    }

    function Total(): (n: int) {
      sec * NANO + nsec
    }
  }

  function Less(a: Time, b: Time): (r: bool) {
    a.sec < b.sec || (a.sec == b.sec && a.nsec < b.nsec)
  }

  function Plus(l: Time, r: Time): (t: Time)
    requires l.Normal() && r.Normal()
  {
    Time(l.sec + r.sec + (l.nsec + r.nsec) / NANO, (l.nsec + r.nsec) % NANO)
  }

  /** On normal times the comparison is that of the nanoseconds they stand for, and addition adds those. */
  lemma TimeTotals(a: Time, b: Time)
    requires a.Normal() && b.Normal()
    ensures Less(a, b) <==> a.Total() < b.Total()
    ensures Plus(a, b).Normal() && Plus(a, b).Total() == a.Total() + b.Total()
    ensures a.Total() == b.Total() ==> a == b
  {
  }

  /** Every number of nanoseconds is that of a normal time: its seconds, and what is left of them. */
  lemma EveryInstant(n: nat)
    ensures exists t: Time :: t.Normal() && t.Total() == n
    ensures Time(n / 1_000_000_000, n % 1_000_000_000).Total() == n
    ensures Time(n / 1_000_000_000, n % 1_000_000_000).Normal()
  {
    var t := Time(n / NANO, n % NANO);
    assert t.Normal() && t.Total() == n;
  }

  // ----- ids and their order

  datatype EventId = EventId(when: Time, how: nat)

  /** The order of the id table: earlier, or a lower callback. */
  predicate IdLess(a: EventId, b: EventId) {
    Less(a.when, b.when) || a.how < b.how
  }

  /** Later ids have callbacks no lower. */
  ghost predicate Coherent(ids: set<EventId>) {
    forall a, b | a in ids && b in ids && Less(a.when, b.when) :: a.how <= b.how
  }

  predicate Lexicographic(a: EventId, b: EventId) {
    Less(a.when, b.when) || (a.when == b.when && a.how < b.how)
  }

  /** The order of the id table is an order on a set of ids exactly when no two have their times one way
      and their callbacks the other; then it is that of the times, and among equal times of the
      callbacks, and only an id itself is equivalent to it. */
  lemma TableOrder(ids: set<EventId>)
    ensures (forall a, b | a in ids && b in ids :: !(IdLess(a, b) && IdLess(b, a))) <==> Coherent(ids)
    ensures Coherent(ids) ==> forall a, b | a in ids && b in ids :: IdLess(a, b) <==> Lexicographic(a, b)
    ensures Coherent(ids) ==> forall a, b | a in ids && b in ids && !IdLess(a, b) && !IdLess(b, a) :: a == b
  {
    if !Coherent(ids) {
      var a, b :| a in ids && b in ids && Less(a.when, b.when) && a.how > b.how;
      assert IdLess(a, b) && IdLess(b, a);
    }
  }

  /** It is none in general. */
  lemma TableOrderFails()
    ensures var a, b := EventId(Time(1, 0), 2), EventId(Time(2, 0), 1); IdLess(a, b) && IdLess(b, a)
  {
  }

  // ----- the table as it is written

  /** A search of the table: it narrows the range to one side of an id it looks at, as a search tree does;
      which one it looks at is up to the shape of the tree. The result is where the id should be. */
  function Search(table: seq<EventId>, id: EventId, lo: nat, hi: nat, probes: seq<nat>): (k: nat)
    requires lo <= hi <= |table|
    ensures lo <= k <= hi
    decreases hi - lo
  {
    if lo == hi then lo
    else
      var m := lo + (if probes == [] then 0 else probes[0]) % (hi - lo);
      var rest := if probes == [] then [] else probes[1..];
      if IdLess(table[m], id) then Search(table, id, m + 1, hi, rest) else Search(table, id, lo, m, rest)
  }

  /** The search finds the id. */
  predicate Finds(table: seq<EventId>, id: EventId, probes: seq<nat>) {
    var k := Search(table, id, 0, |table|, probes);
    k < |table| && !IdLess(id, table[k])
  }

  /** A search that ends at an id did not find it below. */
  lemma {:induction false} SearchEnds(table: seq<EventId>, id: EventId, lo: nat, hi: nat, probes: seq<nat>)
    requires lo <= hi <= |table|
    ensures var k := Search(table, id, lo, hi, probes); k < hi ==> !IdLess(table[k], id)
    decreases hi - lo
  {
    if lo < hi {
      var m := lo + (if probes == [] then 0 else probes[0]) % (hi - lo);
      var rest := if probes == [] then [] else probes[1..];
      if IdLess(table[m], id) {
        SearchEnds(table, id, m + 1, hi, rest);
      } else {
        SearchEnds(table, id, lo, m, rest);
      }
    }
  }

  /** So what is found is the id itself. */
  lemma FoundIsIt(table: seq<EventId>, id: EventId, probes: seq<nat>)
    requires Finds(table, id, probes)
    ensures table[Search(table, id, 0, |table|, probes)] == id
  {
    hide Search;
    SearchEnds(table, id, 0, |table|, probes);
  }

  /** The table after an insertion: the id goes where a search for it ends, unless that finds it. */
  function With(table: seq<EventId>, id: EventId, probes: seq<nat>): (t: seq<EventId>) {
    if Finds(table, id, probes) then table
    else
      var k := Search(table, id, 0, |table|, probes);
      table[..k] + [id] + table[k..]
  }

  /** And after an erasure: what the search finds, if anything, is gone. */
  function Without(table: seq<EventId>, id: EventId, probes: seq<nat>): (t: seq<EventId>) {
    if Finds(table, id, probes) then
      var k := Search(table, id, 0, |table|, probes);
      table[..k] + table[k + 1..]
    else table
  }

  /** Of every two ids the first is below the second and not the other way round. */
  ghost predicate Ordered(table: seq<EventId>) {
    forall i, j | 0 <= i < j < |table| :: IdLess(table[i], table[j]) && !IdLess(table[j], table[i])
  }

  /** A search ends at the place that divides the ids below from the others. */
  lemma {:induction false} SearchDivides(table: seq<EventId>, id: EventId, lo: nat, hi: nat, probes: seq<nat>, at: nat)
    requires lo <= at <= hi <= |table|
    requires forall i | lo <= i < at :: IdLess(table[i], id)
    requires forall i | at <= i < hi :: !IdLess(table[i], id)
    ensures Search(table, id, lo, hi, probes) == at
    decreases hi - lo
  {
    if lo < hi {
      var m := lo + (if probes == [] then 0 else probes[0]) % (hi - lo);
      var rest := if probes == [] then [] else probes[1..];
      if IdLess(table[m], id) {
        SearchDivides(table, id, m + 1, hi, rest, at);
      } else {
        SearchDivides(table, id, lo, m, rest, at);
      }
    }
  }

  /** Looking first at an id on the wrong side loses the one searched for. */
  lemma SearchLost(table: seq<EventId>, k: nat, m: nat)
    requires k < |table| && m < |table| && m != k && (forall i, j | 0 <= i < j < |table| :: table[i] != table[j])
    requires if m < k then !IdLess(table[m], table[k]) else IdLess(table[m], table[k])
    ensures Search(table, table[k], 0, |table|, [m]) != k
  {
    assert m % |table| == m;
  }

  ghost predicate Distinct(table: seq<EventId>) {
    forall i, j | 0 <= i < j < |table| :: table[i] != table[j]
  }

  /** Every search for an id of the table, whichever way it goes, ends where the id is. */
  ghost predicate AllFound(table: seq<EventId>) {
    forall k, way | 0 <= k < |table| :: Search(table, table[k], 0, |table|, way) == k
  }

  /** That is so exactly when the table is ordered. */
  lemma SearchExact(table: seq<EventId>)
    requires Distinct(table)
    ensures AllFound(table) <==> Ordered(table)
  {
    if Ordered(table) {
      forall k, probes | 0 <= k < |table|
        ensures Search(table, table[k], 0, |table|, probes) == k
      {
        SearchDivides(table, table[k], 0, |table|, probes, k);
      }
    } else {
      var i, j :| 0 <= i < j < |table| && !(IdLess(table[i], table[j]) && !IdLess(table[j], table[i]));
      if !IdLess(table[i], table[j]) {
        SearchLost(table, j, i);
      } else {
        SearchLost(table, i, j);
      }
    }
  }

  ghost function IdSet(table: seq<EventId>): (ids: set<EventId>) {
    set id | id in table
  }

  /** An ordered table has coherent ids; so with ids that are not, whatever their arrangement, some search
      for one of them fails. */
  lemma OrderedCoherent(table: seq<EventId>)
    requires Ordered(table)
    ensures Coherent(IdSet(table))
  {
    forall a, b | a in table && b in table && Less(a.when, b.when)
      ensures a.how <= b.how
    {
      var i :| 0 <= i < |table| && table[i] == a;
      var j :| 0 <= j < |table| && table[j] == b;
      assert IdLess(a, b);
    }
  }

  /** Inserting where a search ends keeps a table ordered as long as all ids are coherent. */
  lemma InsertOrdered(table: seq<EventId>, id: EventId, probes: seq<nat>)
    requires Ordered(table) && id !in table && Coherent(IdSet(table) + {id})
    requires forall x | x in IdSet(table) + {id} :: x.when.Normal()
    ensures var k := Search(table, id, 0, |table|, probes); Ordered(table[..k] + [id] + table[k..])
    ensures !Finds(table, id, probes)
  {
    hide IdLess, Search, Coherent, IdSet, Ordered;
    var at := Dividing(table, id);
    SearchDivides(table, id, 0, |table|, probes, at);
    OrderedWith(table, id, at);
  }

  lemma OrderedWith(table: seq<EventId>, id: EventId, at: nat)
    requires Ordered(table) && at <= |table|
    requires forall i | 0 <= i < at :: IdLess(table[i], id) && !IdLess(id, table[i])
    requires forall i | at <= i < |table| :: !IdLess(table[i], id) && IdLess(id, table[i])
    ensures Ordered(table[..at] + [id] + table[at..])
  {
    hide IdLess;
    var r := table[..at] + [id] + table[at..];
    forall i, j | 0 <= i < j < |r|
      ensures IdLess(r[i], r[j]) && !IdLess(r[j], r[i])
    {
      assert i != at ==> r[i] == table[if i < at then i else i - 1];
      assert j != at ==> r[j] == table[if j < at then j else j - 1];
    }
  }

  /** A coherent id divides an ordered table. */
  lemma Dividing(table: seq<EventId>, id: EventId) returns (at: nat)
    requires Ordered(table) && id !in table && Coherent(IdSet(table) + {id})
    requires forall x | x in IdSet(table) + {id} :: x.when.Normal()
    ensures at <= |table|
    ensures forall i | 0 <= i < at :: IdLess(table[i], id) && !IdLess(id, table[i])
    ensures forall i | at <= i < |table| :: !IdLess(table[i], id) && IdLess(id, table[i])
  {
    TableOrder(IdSet(table) + {id});
    at := 0;
    while at < |table| && IdLess(table[at], id)
      invariant at <= |table| && forall i | 0 <= i < at :: IdLess(table[i], id)
    {
      at := at + 1;
    }
    forall i | at <= i < |table|
      ensures !IdLess(table[i], id) && IdLess(id, table[i])
    {
      assert table[i] in IdSet(table) && table[at] in IdSet(table);
    }
    forall i | 0 <= i < at
      ensures !IdLess(id, table[i])
    {
      assert table[i] in IdSet(table);
    }
  }

  /** A table built by inserting ids one after the other, each where a search for it ends, unless the
      search finds it; every search may go its own way. */
  ghost function Built(ids: seq<EventId>, probes: seq<seq<nat>>): (table: seq<EventId>)
    requires |probes| == |ids|
    decreases ids
  {
    if ids == [] then []
    else
      var n := |ids| - 1;
      With(Built(ids[..n], probes[..n]), ids[n], probes[n])
  }

  lemma {:induction false} BuiltOrdered(ids: seq<EventId>, probes: seq<seq<nat>>)
    requires |probes| == |ids| && forall i | 0 <= i < |ids| :: ids[i].when.Normal()
    requires Coherent(IdSet(Built(ids, probes)))
    ensures Ordered(Built(ids, probes)) && forall x | x in Built(ids, probes) :: x.when.Normal()
    decreases ids
  {
    hide Search, IdLess;
    if ids != [] {
      var n := |ids| - 1;
      var t, id := Built(ids[..n], probes[..n]), ids[n];
      if Finds(t, id, probes[n]) {
        BuiltOrdered(ids[..n], probes[..n]);
      } else {
        var k := Search(t, id, 0, |t|, probes[n]);
        InsertedSet(t, k, id);
        assert Coherent(IdSet(t));
        BuiltOrdered(ids[..n], probes[..n]);
        if id in t {
          FindsOwn(t, id, probes[n]);
        } else {
          InsertOrdered(t, id, probes[n]);
        }
      }
    }
  }

  lemma InsertedSet(t: seq<EventId>, k: nat, id: EventId)
    requires k <= |t|
    ensures IdSet(t[..k] + [id] + t[k..]) == IdSet(t) + {id}
  {
    assert t == t[..k] + t[k..];
  }

  lemma FindsOwn(t: seq<EventId>, id: EventId, probes: seq<nat>)
    requires Ordered(t) && id in t
    ensures Finds(t, id, probes)
  {
    var k :| 0 <= k < |t| && t[k] == id;
    SearchDivides(t, id, 0, |t|, probes, k);
  }

  /** Of the tables that come about, exactly those with coherent ids are searched without fail. */
  lemma BuiltExact(ids: seq<EventId>, probes: seq<seq<nat>>)
    requires |probes| == |ids| && forall i | 0 <= i < |ids| :: ids[i].when.Normal()
    ensures AllFound(Built(ids, probes)) <==> Coherent(IdSet(Built(ids, probes)))
  {
    hide Search, Built, IdLess;
    var t := Built(ids, probes);
    if Coherent(IdSet(t)) {
      BuiltOrdered(ids, probes);
      OrderedDistinct(t);
      SearchExact(t);
    } else if AllFound(t) {
      forall i, j | 0 <= i < j < |t|
        ensures t[i] != t[j]
      {
        assert Search(t, t[i], 0, |t|, []) == i && Search(t, t[j], 0, |t|, []) == j;
      }
      SearchExact(t);
      OrderedCoherent(t);
    }
  }

  lemma OrderedDistinct(table: seq<EventId>)
    requires Ordered(table)
    ensures Distinct(table)
  {
  }

  /** Two ids with time and callback opposite, inserted either way, lose the first to a search that looks at
      the second. */
  lemma TwoBuilt(a: EventId, b: EventId)
    requires Less(a.when, b.when) && b.how < a.how
    ensures With([], a, []) == [a] && With([a], b, []) == [a, b] && !Finds([a, b], a, [1])
  {
    assert Search([a], b, 0, 1, []) == Search([a], b, 1, 1, []) == 1;
    assert [a][..1] + [b] + [a][1..] == [a, b];
    assert Search([a, b], a, 0, 2, [1]) == Search([a, b], a, 2, 2, [1][1..]) == 2;
  }

  // ----- the timer

  datatype Event = Event(when: Time, how: nat, ctx: int) {
    function Id(): (id: EventId) {
      EventId(when, how)
    }
  }

  ghost predicate InOrder(events: seq<Event>) {
    && (forall i | 0 <= i < |events| :: events[i].when.Normal())
    && (forall i, j | 0 <= i < j < |events| :: !Less(events[j].when, events[i].when))
    && (forall i, j | 0 <= i < j < |events| :: events[i].Id() != events[j].Id())
  }

  ghost function IdsOf(events: seq<Event>): (ids: set<EventId>) {
    set e | e in events :: e.Id()
  }

  /** What a table of ids has to do with the events pending and the ids seen since both were empty: all are
      seen; and as long as those seen are coherent, the table is ordered and has exactly the ids pending. */
  ghost predicate TableOk(table: seq<EventId>, events: seq<Event>, seen: set<EventId>) {
    && IdSet(table) <= seen && IdsOf(events) <= seen && (forall x | x in seen :: x.when.Normal())
    && (Coherent(seen) ==> Ordered(table) && IdSet(table) == IdsOf(events))
  }

  lemma TableWith(table: seq<EventId>, events: seq<Event>, seen: set<EventId>, id: EventId, way: seq<nat>,
                  events': seq<Event>)
    requires TableOk(table, events, seen) && id !in IdsOf(events) && id.when.Normal()
    requires IdsOf(events') == IdsOf(events) + {id}
    ensures TableOk(With(table, id, way), events', seen + {id})
  {
    hide Search, IdLess, Ordered, IdsOf;
    if !Finds(table, id, way) {
      InsertedSet(table, Search(table, id, 0, |table|, way), id);
    }
    if Coherent(seen + {id}) {
      assert Coherent(seen) && id !in IdSet(table);
      assert Coherent(IdSet(table) + {id});
      InsertOrdered(table, id, way);
    }
  }

  lemma TableWithout(table: seq<EventId>, events: seq<Event>, seen: set<EventId>, id: EventId, way: seq<nat>,
                     events': seq<Event>)
    requires TableOk(table, events, seen) && id in IdsOf(events) && IdsOf(events') == IdsOf(events) - {id}
    ensures TableOk(Without(table, id, way), events', seen)
  {
    hide Search, IdLess, Ordered, IdsOf, Coherent;
    if Finds(table, id, way) {
      ErasedSet(table, Search(table, id, 0, |table|, way));
    }
    if Coherent(seen) {
      assert id in table;
      FindsOwn(table, id, way);
      FoundIsIt(table, id, way);
      ErasedOrdered(table, Search(table, id, 0, |table|, way));
    }
  }

  lemma ErasedSet(t: seq<EventId>, k: nat)
    requires k < |t|
    ensures IdSet(t[..k] + t[k + 1..]) <= IdSet(t)
  {
  }

  lemma ErasedOrdered(t: seq<EventId>, k: nat)
    requires k < |t| && Ordered(t)
    ensures Ordered(t[..k] + t[k + 1..]) && IdSet(t[..k] + t[k + 1..]) == IdSet(t) - {t[k]}
  {
    hide IdLess;
    var r := t[..k] + t[k + 1..];
    OrderedDistinct(t);
    assert t == t[..k] + [t[k]] + t[k + 1..];
    forall i, j | 0 <= i < j < |r|
      ensures IdLess(r[i], r[j]) && !IdLess(r[j], r[i])
    {
      assert r[i] == t[if i < k then i else i + 1] && r[j] == t[if j < k then j else j + 1];
    }
    forall i | 0 <= i < |r|
      ensures r[i] != t[k]
    {
      assert r[i] == t[if i < k then i else i + 1];
    }
  }

  /** As long as the ids seen are coherent, a search finds exactly the ids pending. */
  lemma TableFinds(table: seq<EventId>, events: seq<Event>, seen: set<EventId>, id: EventId, way: seq<nat>)
    requires TableOk(table, events, seen) && Coherent(seen)
    ensures Finds(table, id, way) <==> id in IdsOf(events)
  {
    hide Search, IdLess, Ordered, IdsOf, Coherent;
    if Finds(table, id, way) {
      FoundIsIt(table, id, way);
      assert id in IdSet(table);
    } else if id in IdsOf(events) {
      FindsOwn(table, id, way);
    }
  }

  lemma TableHas(table: seq<EventId>, events: seq<Event>, seen: set<EventId>)
    requires TableOk(table, events, seen)
    ensures Coherent(seen) ==> IdSet(table) == IdsOf(events)
  {
  }

  /** Each event fired at a reading of the clock that is not before its time. */
  ghost predicate Due(out: seq<Event>, clock: seq<Time>) {
    |out| <= |clock| && forall i | 0 <= i < |out| :: !Less(clock[i], out[i].when)
  }

  lemma NoneDue()
    ensures Due([], [])
  {
  }

  lemma OneMoreDue(out: seq<Event>, clock: seq<Time>, e: Event, now: Time)
    requires Due(out, clock) && |clock| == |out|
    ensures Due(out, clock + [now]) && (!Less(now, e.when) ==> Due(out + [e], clock + [now]))
  {
  }

  /** The timer. Each operation is given the way its search of the table goes. */
  class Timer {
    var events: seq<Event>
    var table: seq<EventId>
    ghost var seen: set<EventId>
    ghost var subscribed: multiset<Event>
    ghost var fired: multiset<Event>
    ghost var cancelled: multiset<Event>

    /** The events are in order of time, no two with the same id; and every subscription ever made is pending,
        has fired or was cancelled, one of these and once. */
    ghost predicate Valid()
      reads this
    {
      && InOrder(events) && TableOk(table, events, seen)
      && subscribed == multiset(events) + fired + cancelled
    }

    constructor ()
      ensures Valid() && events == [] && table == [] && seen == {} && subscribed == multiset{}
    {
      events, table, seen := [], [], {};
      subscribed, fired, cancelled := multiset{}, multiset{}, multiset{};
    }

    /** Refused, as it is written, when some event has the same time and one from there on has the same
        callback. That includes every event with the same id. */
    ghost predicate Refused(when: Time, how: nat)
      reads this
    {
      && (exists e | e in events :: e.when == when)
      && (exists e | e in events :: !Less(e.when, when) && e.how == how)
    }

    method SubscribeEventAt(when: Time, how: nat, ctx: int, way: seq<nat>) returns (ok: bool)
      requires Valid() && how != 0 && when.Normal()
      modifies this
      ensures Valid() && ok == !old(Refused(when, how))
      ensures ok ==> EventId(when, how) !in IdsOf(old(events)) && seen == old(seen) + {EventId(when, how)}
      ensures ok ==> multiset(events) == multiset(old(events)) + multiset{Event(when, how, ctx)}
      ensures ok ==> table == With(old(table), EventId(when, how), way)
      ensures !ok ==> events == old(events) && table == old(table) && seen == old(seen)
      ensures subscribed == old(subscribed) + if ok then multiset{Event(when, how, ctx)} else multiset{}
      ensures fired == old(fired) && cancelled == old(cancelled)
    {
      hide Less, InOrder, IdsOf, TableOk, With;
      ok := true;
      var refused := Scan(events, when, how);
      if refused {
        return false;
      }
      var e := Event(when, how, ctx);
      var at := Position(events, when, true);
      Inserted(events, at, e);
      TableWith(table, events, seen, e.Id(), way, events[..at] + [e] + events[at..]);
      events := events[..at] + [e] + events[at..];
      table, seen := With(table, e.Id(), way), seen + {e.Id()};
      subscribed := subscribed + multiset{e};
    }

    /** Cancels the event with an id if the search of the table finds it. As long as the ids seen are coherent
        that is exactly when it is pending. Otherwise a pending event may be missed, and an entry found whose
        event is gone; `defined` says that it is not. */
    method UnsubscribeEvent(id: EventId, way: seq<nat>) returns (ok: bool, defined: bool)
      requires Valid()
      modifies this
      ensures Valid() && seen == old(seen) && subscribed == old(subscribed) && fired == old(fired)
      ensures ok == (id.when.Total() != 0 && id.how != 0 && Finds(old(table), id, way))
      ensures Coherent(seen) ==>
        defined && ok == (id.when.Total() != 0 && id.how != 0 && id in IdsOf(old(events)))
      ensures defined == (ok ==> id in IdsOf(old(events)))
      ensures if ok && defined then
                && table == Without(old(table), id, way)
                && exists e | e in old(events) ::
                     e.Id() == id && multiset(old(events)) == multiset(events) + multiset{e}
              else events == old(events) && table == old(table)
    {
      hide InOrder, TableOk, Without, Finds;
      if Coherent(seen) {
        TableFinds(table, events, seen, id, way);
      }
      if id.when.Total() == 0 || id.how == 0 || !Finds(table, id, way) {
        return false, true;
      }
      var k := 0;
      while k < |events| && events[k].Id() != id
        invariant k <= |events| && id !in IdsOf(events[..k])
      {
        assert events[..k + 1] == events[..k] + [events[k]];
        k := k + 1;
      }
      if k == |events| {
        assert events[..k] == events;
        return true, false;
      }
      assert events[k] in old(events);
      RemovedAt(events, k);
      TableWithout(table, events, seen, id, way, events[..k] + events[k + 1..]);
      cancelled := cancelled + multiset{events[k]};
      table := Without(table, id, way);
      events := events[..k] + events[k + 1..];
      return true, true;
    }

    method UnsubscribeAllEvent()
      requires Valid()
      modifies this
      ensures Valid() && events == [] && table == [] && seen == {}
      ensures subscribed == old(subscribed) && fired == old(fired)
    {
      cancelled := cancelled + multiset(events);
      table, events, seen := [], [], {};
    }

    method FireMin(way: seq<nat>)
      requires Valid() && events != []
      modifies this
      ensures Valid() && events == old(events)[1..] && table == Without(old(table), old(events)[0].Id(), way)
      ensures seen == old(seen) && subscribed == old(subscribed) && cancelled == old(cancelled)
      ensures fired == old(fired) + multiset{old(events)[0]}
    {
      hide InOrder, TableOk, Without;
      FirstRemoved(events);
      assert events[0] in events;
      TableWithout(table, events, seen, events[0].Id(), way, events[1..]);
      fired := fired + multiset{events[0]};
      table := Without(table, events[0].Id(), way);
      events := events[1..];
    }

    /** The firing loop, with the clock read again for every event: events fire in order of time, each at a
        reading that is not before its time, until none is left or a reading is before the earliest. Each
        one fired leaves the events, and the table too as long as the ids seen are coherent. */
    method Process() returns (out: seq<Event>, clock: seq<Time>)
      requires Valid()
      modifies this
      ensures Valid() && out + events == old(events) && |clock| == |out| + if events == [] then 0 else 1
      ensures Due(out, clock)
      ensures events != [] ==> forall e | e in events :: Less(clock[|out|], e.when)
      ensures seen == old(seen) && (Coherent(seen) ==> IdSet(table) == IdsOf(events))
      ensures subscribed == old(subscribed) && cancelled == old(cancelled) && fired == old(fired) + multiset(out)
    {
      hide InOrder, IdsOf, Less, IdSet, Coherent, TableOk, Without, Due;
      out, clock := [], [];
      NoneDue();
      while events != []
        invariant Valid() && out + events == old(events) && |clock| == |out|
        invariant Due(out, clock)
        invariant seen == old(seen) && subscribed == old(subscribed) && cancelled == old(cancelled)
        invariant fired == old(fired) + multiset(out)
      {
        var min := events[0];
        var now: Time :| true;
        OneMoreDue(out, clock, min, now);
        clock := clock + [now];
        if Less(now, min.when) {
          RestLater(events, now);
          TableHas(table, events, seen);
          return;
        }
        var way: seq<nat> :| true;
        OneMoreFired(out, events, old(fired));
        FireMin(way);
        out := out + [min];
      }
      TableHas(table, events, seen);
    }
  }

  /** Any two events with time and callback opposite are enough: the one subscribed first is pending, and yet it
      is not found when it is to be cancelled. */
  method CancelMissed(a: EventId, b: EventId) returns (t: Timer, ok: bool)
    requires a.when.Normal() && b.when.Normal() && Less(a.when, b.when) && 0 < b.how < a.how
    ensures t.Valid() && !ok && a in IdsOf(t.events)
  {
    hide InOrder, TableOk, Coherent, With, Without, Finds, Search;
    t := new Timer();
    var e := Event(a.when, a.how, 0);
    var _ := t.SubscribeEventAt(a.when, a.how, 0, []);
    OneEvent(t.events, e);
    TwoBuilt(a, b);
    assert !t.Refused(b.when, b.how);
    var _ := t.SubscribeEventAt(b.when, b.how, 0, []);
    assert t.table == [a, b];
    assert e in multiset(t.events);
    var found, _ := t.UnsubscribeEvent(a, [1]);
    assert e in t.events && e.Id() == a;
    ok := found;
  }

  lemma OneEvent(events: seq<Event>, e: Event)
    requires multiset(events) == multiset{e}
    ensures forall x | x in events :: x == e
  {
    assert forall x | x in events :: x in multiset(events);
  }

  /** The scan of a subscription: from the first event of the time, if there is one, to the end. */
  method Scan(events: seq<Event>, when: Time, how: nat) returns (refused: bool)
    requires InOrder(events) && when.Normal()
    ensures refused <==>
      (exists e | e in events :: e.when == when) && (exists e | e in events :: !Less(e.when, when) && e.how == how)
    ensures !refused ==> EventId(when, how) !in IdsOf(events)
  {
    var first := Position(events, when, false);
    if first == |events| || events[first].when != when {
      return false;
    }
    assert events[first] in events;
    var k := first;
    while k < |events|
      invariant first <= k <= |events|
      invariant forall i | first <= i < k :: events[i].how != how
    {
      if events[k].how == how {
        assert events[k] in events;
        return true;
      }
      k := k + 1;
    }
    return false;
  }

  /** Where in the events a time belongs: before the events of that time, or after them. */
  method Position(events: seq<Event>, when: Time, after: bool) returns (k: nat)
    requires InOrder(events) && when.Normal()
    ensures k <= |events|
    ensures forall i | 0 <= i < k :: if after then !Less(when, events[i].when) else Less(events[i].when, when)
    ensures forall i | k <= i < |events| :: if after then Less(when, events[i].when) else !Less(events[i].when, when)
  {
    k := 0;
    while k < |events| && (if after then !Less(when, events[k].when) else Less(events[k].when, when))
      invariant k <= |events|
      invariant forall i | 0 <= i < k :: if after then !Less(when, events[i].when) else Less(events[i].when, when)
    {
      k := k + 1;
    }
  }

  lemma Inserted(events: seq<Event>, at: nat, e: Event)
    requires InOrder(events) && at <= |events| && e.when.Normal() && e.Id() !in IdsOf(events)
    requires forall i | 0 <= i < at :: !Less(e.when, events[i].when)
    requires forall i | at <= i < |events| :: Less(e.when, events[i].when)
    ensures var r := events[..at] + [e] + events[at..];
      InOrder(r) && IdsOf(r) == IdsOf(events) + {e.Id()} && multiset(r) == multiset(events) + multiset{e}
  {
    hide InOrder, IdsOf;
    assert events == events[..at] + events[at..];
    InsertedOrder(events, at, e);
    InsertedIds(events, at, e);
  }

  lemma InsertedOrder(events: seq<Event>, at: nat, e: Event)
    requires InOrder(events) && at <= |events| && e.when.Normal() && e.Id() !in IdsOf(events)
    requires forall i | 0 <= i < at :: !Less(e.when, events[i].when)
    requires forall i | at <= i < |events| :: Less(e.when, events[i].when)
    ensures InOrder(events[..at] + [e] + events[at..])
  {
    hide Less;
    var r := events[..at] + [e] + events[at..];
    assert forall i | 0 <= i < |r| && i != at :: r[i] == events[if i < at then i else i - 1];
    assert forall i | 0 <= i < |events| :: events[i] in events && events[i].Id() in IdsOf(events);
    forall i, j | 0 <= i < j < |r|
      ensures !Less(r[j].when, r[i].when) && r[i].Id() != r[j].Id()
    {
      if i == at {
        LessAsymmetric(e.when, r[j].when);
      }
    }
  }

  lemma LessAsymmetric(a: Time, b: Time)
    ensures !(Less(a, b) && Less(b, a))
  {
  }

  lemma InsertedIds(events: seq<Event>, at: nat, e: Event)
    requires at <= |events|
    ensures IdsOf(events[..at] + [e] + events[at..]) == IdsOf(events) + {e.Id()}
  {
    var r := events[..at] + [e] + events[at..];
    assert events == events[..at] + events[at..];
    assert forall x :: x in r <==> x in events || x == e;
  }

  lemma FirstRemoved(events: seq<Event>)
    requires InOrder(events) && events != []
    ensures InOrder(events[1..]) && IdsOf(events[1..]) == IdsOf(events) - {events[0].Id()}
    ensures multiset(events) == multiset(events[1..]) + multiset{events[0]}
  {
    hide InOrder, IdsOf;
    RemovedAt(events, 0);
    assert events[..0] + events[1..] == events[1..];
  }

  /** The first event goes from those left to those that fired. */
  lemma OneMoreFired(out: seq<Event>, events: seq<Event>, fired: multiset<Event>)
    requires events != []
    ensures var more := out + [events[0]];
      more + events[1..] == out + events && fired + multiset(out) + multiset{events[0]} == fired + multiset(more)
  {
    assert multiset(out + [events[0]]) == multiset(out) + multiset{events[0]};
  }

  lemma RestLater(events: seq<Event>, now: Time)
    requires InOrder(events) && events != [] && Less(now, events[0].when)
    ensures forall e | e in events :: Less(now, e.when)
  {
  }

  lemma RemovedAt(events: seq<Event>, at: nat)
    requires InOrder(events) && at < |events|
    ensures var r := events[..at] + events[at + 1..];
      && InOrder(r)
      && IdsOf(r) == IdsOf(events) - {events[at].Id()}
      && multiset(events) == multiset(r) + multiset{events[at]}
  {
    hide InOrder, IdsOf;
    assert events == events[..at] + [events[at]] + events[at + 1..];
    RemovedOrder(events, at);
    RemovedIds(events, at);
  }

  lemma RemovedOrder(events: seq<Event>, at: nat)
    requires InOrder(events) && at < |events|
    ensures InOrder(events[..at] + events[at + 1..])
  {
    hide Less;
    var r := events[..at] + events[at + 1..];
    assert forall i | 0 <= i < |r| :: r[i] == events[if i < at then i else i + 1];
  }

  lemma RemovedIds(events: seq<Event>, at: nat)
    requires InOrder(events) && at < |events|
    ensures IdsOf(events[..at] + events[at + 1..]) == IdsOf(events) - {events[at].Id()}
  {
    hide Less;
    var r := events[..at] + events[at + 1..];
    assert forall i | 0 <= i < |r| :: r[i] == events[if i < at then i else i + 1];
    forall x | x in IdsOf(events) && x != events[at].Id()
      ensures x in IdsOf(r)
    {
      var i :| 0 <= i < |events| && events[i].Id() == x;
      assert r[if i < at then i else i - 1].Id() == x;
    }
  }
}
