/**
  The event handler as a pure step over the reconciliation state, and the
  fold of that step over a delivered stream.

  Each event first goes through the timestamp-gated replace of its entity's
  latest entry; then, if it is an `inside` or `exit`, it is logged and applied
  to its fence's occupancy. The second part is NOT gated by the first: an event
  rejected as stale for the latest entry still moves occupancy and the log.
 */
module Ingest {
  import opened Events
  import opened LatestStore
  import opened OccupancyTracker
  import opened HistoryLog

  /** Everything the handler keeps between events. */
  datatype State = State(latest: Store, occupancy: Occupancy, history: seq<GeoEvent>)

  /** The state when the view is mounted: nothing seen yet. */
  function Init(): State {
    State(map[], map[], [])
  }

  /** The handling of one delivered event. */
  function Step(s: State, ev: GeoEvent): (r: State)
    // non-crossing events only touch the latest entry
    ensures !IsCrossing(ev.detect) ==> r.occupancy == s.occupancy && r.history == s.history
    // crossings are logged whether or not the latest entry accepted them
    ensures IsCrossing(ev.detect) ==> r.history == s.history + [ev]
    // the latest store changes at most at the event's entity
    ensures forall id :: id != ev.id ==> (id in r.latest <==> id in s.latest)
    ensures forall id :: id != ev.id && id in s.latest ==> r.latest[id] == s.latest[id]
    // the occupancy changes at most at the event's fence
    ensures forall h :: h != ev.hook ==> (h in r.occupancy <==> h in s.occupancy)
    ensures forall h :: h != ev.hook && h in s.occupancy ==> r.occupancy[h] == s.occupancy[h]
  {
    State(Update(s.latest, ev), Apply(s.occupancy, ev), Append(s.history, ev))
  }

  /** The events `evs`, delivered in order, handled one after the other from `s`. */
  function Run(s: State, evs: seq<GeoEvent>): (r: State)
    ensures s.latest.Keys <= r.latest.Keys
    ensures s.occupancy.Keys <= r.occupancy.Keys
    ensures s.history <= r.history
    ensures |r.history| <= |s.history| + |evs|
    decreases |evs|
  {
    if |evs| == 0 then s
    else Step(Run(s, evs[..|evs| - 1]), evs[|evs| - 1])
  }

  /** Handling a stream in two pieces is handling it in one. */
  lemma {:induction false} RunAppend(s: State, a: seq<GeoEvent>, b: seq<GeoEvent>)
    ensures Run(s, a + b) == Run(Run(s, a), b)
    decreases |b|
  {
    if |b| == 0 {
      assert a + b == a;
    } else {
      var b' := b[..|b| - 1];
      assert (a + b)[..|a + b| - 1] == a + b';
      RunAppend(s, a, b');
    }
  }

  /** The first event of a stream is handled first. */
  lemma RunCons(s: State, ev: GeoEvent, rest: seq<GeoEvent>)
    ensures Run(s, [ev] + rest) == Run(Step(s, ev), rest)
  {
    RunAppend(s, [ev], rest);
    assert [ev][..0] == [];
  }

  /**
    The consistency the handler keeps: entries are filed under their own
    entity, every occupant and every logged entity has a latest entry, the log
    holds only crossings, and every fence entry comes from a logged crossing.
   */
  ghost predicate Wf(s: State) {
    && Keyed(s.latest)
    && (forall h, id :: h in s.occupancy && id in s.occupancy[h] ==> id in s.latest)
    && (forall k :: 0 <= k < |s.history| ==> s.history[k].id in s.latest)
    && (forall k :: 0 <= k < |s.history| ==> IsCrossing(s.history[k].detect))
    && (forall h :: h in s.occupancy ==> exists k :: 0 <= k < |s.history| && s.history[k].hook == h)
  }

  lemma InitWf()
    ensures Wf(Init())
  {
  }

  /** One step keeps the handler's state consistent. */
  lemma StepKeepsWf(s: State, ev: GeoEvent)
    requires Wf(s)
    ensures Wf(Step(s, ev))
  {
    var r := Step(s, ev);
    UpdateKeepsKeyed(s.latest, ev);
    forall h | h in r.occupancy
      ensures exists k :: 0 <= k < |r.history| && r.history[k].hook == h
    {
      if h == ev.hook && IsCrossing(ev.detect) {
        assert r.history[|s.history|] == ev;
      } else {
        var k :| 0 <= k < |s.history| && s.history[k].hook == h;
        assert r.history[k] == s.history[k];
      }
    }
  }

  /** Any stream handled from a consistent state leaves it consistent. */
  lemma {:induction false} RunKeepsWf(s: State, evs: seq<GeoEvent>)
    requires Wf(s)
    ensures Wf(Run(s, evs))
    decreases |evs|
  {
    if |evs| > 0 {
      RunKeepsWf(s, evs[..|evs| - 1]);
      StepKeepsWf(Run(s, evs[..|evs| - 1]), evs[|evs| - 1]);
    }
  }
}
