/** The page set a bulk slot above the reserve limit keeps, over everything that happens to it. */
module PageSets {
  import opened Options
  import opened Slabs

  /** The set is overwritten by every expansion, successful or not, and a put removes the object's page
      and then the set if it is empty. */
  datatype PageEvent = Grown(page: Option<Addr>) | Dropped(gone: Addr)

  function After(record: Option<set<Addr>>, ev: PageEvent): (r: Option<set<Addr>>) {
    match ev
    case Grown(None) => Some({})
    case Grown(Some(p)) => Some({p})
    case Dropped(p) =>
      if record.None? || record.value <= {p} then None else Some(record.value - {p})
  }

  /** The page set after a history; nothing is the missing entry a put must not meet. */
  function Record(history: seq<PageEvent>): (r: Option<set<Addr>>) {
    if history == [] then None else After(Record(history[..|history| - 1]), history[|history| - 1])
  }

  lemma RecordMore(history: seq<PageEvent>, ev: PageEvent)
    ensures Record(history + [ev]) == After(Record(history), ev)
  {
    assert (history + [ev])[..|history|] == history;
  }

  /** The newest expansion; everything since was a put. */
  ghost predicate NewestAt(history: seq<PageEvent>, i: nat) {
    && i < |history| && history[i].Grown?
    && forall j | i < j < |history| :: history[j].Dropped?
  }

  /** The object of the newest expansion has not been put since, or, if that expansion failed, nothing
      has. */
  ghost predicate NewestOut(history: seq<PageEvent>) {
    exists i :: NewestAt(history, i) && OutSince(history, i)
  }

  ghost predicate OutSince(history: seq<PageEvent>, i: nat)
    requires NewestAt(history, i)
  {
    match history[i].page
    case Some(p) => forall j | i < j < |history| :: history[j].gone != p
    case None => |history| == i + 1
  }

  lemma {:induction false} RecordSince(history: seq<PageEvent>, i: nat)
    requires NewestAt(history, i)
    ensures Record(history).Some? <==> OutSince(history, i)
    ensures Record(history).Some? ==>
      Record(history).value == if history[i].page.Some? then {history[i].page.value} else {}
  {
    var last := |history| - 1;
    if last > i {
      var before := history[..last];
      RecordSince(before, i);
      assert forall j | i < j < |before| :: before[j] == history[j];
      assert history[last].Dropped?;
      if OutSince(history, i) {
        assert history[i].page.Some? && history[last].gone != history[i].page.value;
        assert OutSince(before, i);
      }
    }
  }

  lemma {:induction false} NeverGrown(history: seq<PageEvent>)
    requires forall i | 0 <= i < |history| :: history[i].Dropped?
    ensures Record(history).None?
  {
    if history != [] {
      NeverGrown(history[..|history| - 1]);
    }
  }

  /** The page set is there exactly when the newest object allocated for the slot is still out. */
  lemma RecordDefined(history: seq<PageEvent>)
    ensures Record(history).Some? <==> NewestOut(history)
  {
    if exists i | 0 <= i < |history| :: history[i].Grown? {
      var i := Newest(history);
      RecordSince(history, i);
      forall k | NewestAt(history, k)
        ensures k == i
      {
      }
    } else {
      NeverGrown(history);
    }
  }

  lemma Newest(history: seq<PageEvent>) returns (i: nat)
    requires exists i | 0 <= i < |history| :: history[i].Grown?
    ensures NewestAt(history, i)
  {
    i := |history| - 1;
    while !history[i].Grown?
      invariant 0 <= i < |history| && exists k | 0 <= k <= i :: history[k].Grown?
      invariant forall j | i < j < |history| :: history[j].Dropped?
      decreases i
    {
      i := i - 1;
    }
  }
}
