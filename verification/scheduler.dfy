/** The per-agent scheduler (Agent.js `schedule`, `tickScheduled`): a list of
    events with countdown timers. Each tick lowers every timer by the frame's
    delta; the events whose timer is then at or below zero fire once and leave
    the list. Event objects are compared by identity in the source; here each
    carries an `id`. */
module Scheduler {
  import opened Seqs

  datatype Event<K> = Event(id: nat, task: K, timer: real)

  ghost predicate UniqueIds<K>(events: seq<Event<K>>)
  {
    forall i, j :: 0 <= i < j < |events| ==> events[i].id != events[j].id
  }

  /** `schedule`: append one event with `timer = timeout` and hand it back. */
  function Schedule<K>(events: seq<Event<K>>, id: nat, task: K, timeout: real): (r: (seq<Event<K>>, Event<K>))
    ensures r.1.id == id && r.1.task == task && r.1.timer == timeout
    ensures |r.0| == |events| + 1 && r.0[..|events|] == events && r.0[|events|] == r.1
  {
    var e := Event(id, task, timeout);
    (events + [e], e)
  }

  /** Every timer lowered by `delta`. */
  function Elapse<K>(events: seq<Event<K>>, delta: real): (r: seq<Event<K>>)
    ensures |r| == |events|
    ensures forall i :: 0 <= i < |r| ==> r[i].id == events[i].id && r[i].task == events[i].task
    ensures forall i :: 0 <= i < |r| ==> r[i].timer == events[i].timer - delta
  {
    seq(|events|, i requires 0 <= i < |events| => events[i].(timer := events[i].timer - delta))
  }

  predicate IsDue<K>(e: Event<K>)
  {
    e.timer <= 0.0
  }

  predicate IsPending<K>(e: Event<K>)
  {
    e.timer > 0.0
  }

  /** The reference tick: after lowering the timers, the due events fire in list
      order and the pending ones stay, in order. */
  function Tick<K(!new)>(events: seq<Event<K>>, delta: real): (r: (seq<Event<K>>, seq<Event<K>>))
  {
    var lowered := Elapse(events, delta);
    (Filter(lowered, IsPending), Filter(lowered, IsDue))
  }

  /** No event of `gone` has the id of `e`. */
  predicate NotAmong<K>(gone: seq<Event<K>>, e: Event<K>)
  {
    forall i :: 0 <= i < |gone| ==> gone[i].id != e.id
  }

  /** Every event whose id is not among `gone`, in order (`difference` by
      identity). */
  function Difference<K(!new)>(events: seq<Event<K>>, gone: seq<Event<K>>): seq<Event<K>>
  {
    Filter(events, e => NotAmong(gone, e))
  }

  lemma ElapseSnoc<K>(events: seq<Event<K>>, i: nat, delta: real)
    requires i < |events|
    ensures Elapse(events[..i + 1], delta) == Elapse(events[..i], delta) + [events[i].(timer := events[i].timer - delta)]
  {
  }

  /** What leaves the list is what fired, and what stays was lowered and is
      still pending. */
  lemma TickSplits<K(!new)>(events: seq<Event<K>>, delta: real)
    ensures forall e :: e in Tick(events, delta).1 ==> e in Elapse(events, delta) && e.timer <= 0.0
    ensures forall e :: e in Tick(events, delta).0 ==> e in Elapse(events, delta) && e.timer > 0.0
    ensures |Tick(events, delta).0| + |Tick(events, delta).1| == |events|
  {
    var lowered := Elapse(events, delta);
    FilterComplement(lowered, IsPending, IsDue);
  }

  /** An event that fires does not stay behind: with distinct ids, nothing
      left pending shares an id with a fired event, so each fires once. */
  lemma FiredLeave<K(!new)>(events: seq<Event<K>>, delta: real)
    requires UniqueIds(events)
    ensures forall f, e :: f in Tick(events, delta).1 && e in Tick(events, delta).0 ==> f.id != e.id
  {
    var lowered := Elapse(events, delta);
    forall f, e | f in Tick(events, delta).1 && e in Tick(events, delta).0
      ensures f.id != e.id
    {
      var i :| 0 <= i < |lowered| && lowered[i] == f;
      var j :| 0 <= j < |lowered| && lowered[j] == e;
      assert events[i].id == f.id && events[j].id == e.id;
    }
  }

  /** `_.without(events, e)` for the event with identity `id`. */
  function Cancel<K(!new)>(events: seq<Event<K>>, id: nat): (r: seq<Event<K>>)
    ensures forall e :: e in r <==> e in events && e.id != id
  {
    Filter(events, (e: Event<K>) => e.id != id)
  }

  lemma CancelUniqueIds<K(!new)>(events: seq<Event<K>>, id: nat)
    requires UniqueIds(events)
    ensures UniqueIds(Cancel(events, id))
  {
    FilterUniqueIds(events, (e: Event<K>) => e.id != id);
  }

  lemma UniqueSnoc<K>(events: seq<Event<K>>, e: Event<K>)
    requires UniqueIds(events)
    requires forall i :: 0 <= i < |events| ==> events[i].id != e.id
    ensures UniqueIds(events + [e])
  {
  }

  /** Dropping events never makes two ids meet. */
  lemma {:induction false} FilterUniqueIds<K(!new)>(events: seq<Event<K>>, p: Event<K> -> bool)
    requires UniqueIds(events)
    ensures UniqueIds(Filter(events, p))
  {
    if |events| > 0 {
      var front, last := events[..|events| - 1], events[|events| - 1];
      assert events == front + [last];
      assert UniqueIds(front);
      forall e | e in front
        ensures e.id != last.id
      {
        var j :| 0 <= j < |front| && front[j] == e;
        assert events[j] == e;
      }
      FilterUniqueIds(front, p);
      var f := Filter(front, p);
      forall i | 0 <= i < |f|
        ensures f[i].id != last.id
      {
        assert f[i] in front;
      }
      FilterSnoc(front, last, p);
      if p(last) {
        UniqueSnoc(f, last);
      }
    }
  }

  /** `tickScheduled`, step by step as the source does it: walk the list,
      lower each timer, collect the due ones, then keep the events that were
      not collected. */
  method TickScheduled<K(!new)>(events: seq<Event<K>>, delta: real) returns (remaining: seq<Event<K>>, fired: seq<Event<K>>)
    ensures fired == Tick(events, delta).1
    ensures forall e :: e in remaining ==> e in Elapse(events, delta) && e.timer > 0.0
    ensures UniqueIds(events) ==> remaining == Tick(events, delta).0
  {
    var lowered: seq<Event<K>> := [];
    var completed: seq<Event<K>> := [];
    for i := 0 to |events|
      invariant lowered == Elapse(events[..i], delta)
      invariant completed == Filter(lowered, IsDue)
    {
      var e := events[i].(timer := events[i].timer - delta);
      ElapseSnoc(events, i, delta);
      FilterSnoc(lowered, e, IsDue);
      lowered := lowered + [e];
      if e.timer <= 0.0 {
        completed := completed + [e];
      }
    }
    assert events[..|events|] == events;
    remaining := Difference(lowered, completed);
    fired := completed;
    if UniqueIds(events) {
      DifferenceOfDue(lowered);
    }
  }

  /** With distinct ids, removing the due events by identity keeps exactly the
      pending ones. */
  lemma DifferenceOfDue<K(!new)>(lowered: seq<Event<K>>)
    requires UniqueIds(lowered)
    ensures Difference(lowered, Filter(lowered, IsDue)) == Filter(lowered, IsPending)
  {
    var due := Filter(lowered, IsDue);
    forall i | 0 <= i < |lowered|
      ensures NotAmong(due, lowered[i]) == IsPending(lowered[i])
    {
      var e := lowered[i];
      if IsDue(e) {
        assert e in due;
        var k :| 0 <= k < |due| && due[k] == e;
        assert !NotAmong(due, e);
      } else {
        forall k | 0 <= k < |due|
          ensures due[k].id != e.id
        {
          assert due[k] in lowered;
          var j :| 0 <= j < |lowered| && lowered[j] == due[k];
          assert j != i;
        }
      }
    }
    FilterCongruent(lowered, e => NotAmong(due, e), IsPending);
  }
}
