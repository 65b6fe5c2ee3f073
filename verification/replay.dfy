/**
  What a whole stream leaves behind, stated without the step function:
  the history is the crossing filter of the stream, every entity's latest
  entry is the first of its latest-timed events, and an entity is inside a
  fence exactly when it entered it and did not exit it afterwards.
 */
module Replay {
  import opened Events
  import opened LatestStore
  import opened OccupancyTracker
  import opened HistoryLog
  import opened Ingest

  /** Some event of the stream is about entity `id`. */
  ghost predicate Mentions(evs: seq<GeoEvent>, id: string) {
    exists i :: 0 <= i < |evs| && evs[i].id == id
  }

  /**
    `evs[k]` is the event the latest store ends up holding for `id`: no event
    for `id` is later, and every event for `id` delivered before it is strictly
    earlier (ties keep the first arrival).
   */
  ghost predicate Winner(evs: seq<GeoEvent>, id: string, k: int) {
    && 0 <= k < |evs|
    && evs[k].id == id
    && (forall j :: 0 <= j < |evs| && evs[j].id == id ==> evs[j].time <= evs[k].time)
    && (forall j :: 0 <= j < k && evs[j].id == id ==> evs[j].time < evs[k].time)
  }

  /** Some crossing of the stream is at fence `hook`. */
  ghost predicate CrossedAt(evs: seq<GeoEvent>, hook: string) {
    exists i :: 0 <= i < |evs| && evs[i].hook == hook && IsCrossing(evs[i].detect)
  }

  /** No `exit` of `id` from `hook` is delivered after position `i`. */
  ghost predicate NoExitAfter(evs: seq<GeoEvent>, i: nat, hook: string, id: string) {
    forall j :: i < j < |evs| ==> !(evs[j].detect.Exit? && Concerns(evs[j], hook, id))
  }

  /** `id` entered `hook` at some point and never exited it afterwards. */
  ghost predicate StaysInside(evs: seq<GeoEvent>, hook: string, id: string) {
    exists i :: 0 <= i < |evs| && evs[i].detect.Inside? && Concerns(evs[i], hook, id)
                && NoExitAfter(evs, i, hook, id)
  }

  /** The log after a run is the old log followed by the stream's crossings. */
  lemma {:induction false} RunHistory(s: State, evs: seq<GeoEvent>)
    ensures Run(s, evs).history == s.history + Crossings(evs)
    decreases |evs|
  {
    if |evs| > 0 {
      RunHistory(s, evs[..|evs| - 1]);
    }
  }

  /**
    Stored times never go down over a stream, and end at least as late as
    every event delivered for that entity.
   */
  lemma {:induction false} RunMonotone(s: State, evs: seq<GeoEvent>, id: string)
    requires id in s.latest || Mentions(evs, id)
    ensures id in Run(s, evs).latest
    ensures id in s.latest ==> Run(s, evs).latest[id].time >= s.latest[id].time
    ensures forall i :: 0 <= i < |evs| && evs[i].id == id ==> Run(s, evs).latest[id].time >= evs[i].time
    decreases |evs|
  {
    if |evs| > 0 {
      var p := evs[..|evs| - 1];
      var e := evs[|evs| - 1];
      if id in s.latest || Mentions(p, id) {
        RunMonotone(s, p, id);
      } else {
        assert forall i :: 0 <= i < |p| ==> p[i] == evs[i];
        assert e.id == id;
      }
    }
  }

  /** An entity the stream never mentions keeps its entry, or its absence. */
  lemma {:induction false} RunLeavesOtherEntities(s: State, evs: seq<GeoEvent>, id: string)
    requires !Mentions(evs, id)
    ensures id in Run(s, evs).latest <==> id in s.latest
    ensures id in s.latest ==> Run(s, evs).latest[id] == s.latest[id]
    decreases |evs|
  {
    if |evs| > 0 {
      var p := evs[..|evs| - 1];
      assert forall i :: 0 <= i < |p| ==> p[i] == evs[i];
      RunLeavesOtherEntities(s, p, id);
    }
  }

  /** A fence the stream never crosses keeps its occupancy entry, or its absence. */
  lemma {:induction false} RunLeavesOtherFences(s: State, evs: seq<GeoEvent>, hook: string)
    requires !CrossedAt(evs, hook)
    ensures hook in Run(s, evs).occupancy <==> hook in s.occupancy
    ensures hook in s.occupancy ==> Run(s, evs).occupancy[hook] == s.occupancy[hook]
    decreases |evs|
  {
    if |evs| > 0 {
      var p := evs[..|evs| - 1];
      assert forall i :: 0 <= i < |p| ==> p[i] == evs[i];
      RunLeavesOtherFences(s, p, hook);
    }
  }

  /** Extending a stream with an event for another entity keeps the winner. */
  lemma WinnerKeptByOther(p: seq<GeoEvent>, e: GeoEvent, id: string, k: int)
    requires Winner(p, id, k) && e.id != id
    ensures Winner(p + [e], id, k)
  {
  }

  /** Extending a stream with an event no later than the winner keeps the winner. */
  lemma WinnerKeptByStale(p: seq<GeoEvent>, e: GeoEvent, id: string, k: int)
    requires Winner(p, id, k) && e.id == id && e.time <= p[k].time
    ensures Winner(p + [e], id, k)
  {
  }

  /** Extending a stream with an event later than the winner makes it the winner. */
  lemma WinnerTakenByNewer(p: seq<GeoEvent>, e: GeoEvent, id: string, k: int)
    requires Winner(p, id, k) && e.id == id && e.time > p[k].time
    ensures Winner(p + [e], id, |p|)
  {
  }

  /** The first event for an entity is its winner. */
  lemma WinnerFirst(p: seq<GeoEvent>, e: GeoEvent, id: string)
    requires !Mentions(p, id) && e.id == id
    ensures Winner(p + [e], id, |p|)
  {
  }

  /** A stream extended by one event mentions an entity iff either part does. */
  lemma MentionsSnoc(p: seq<GeoEvent>, e: GeoEvent, id: string)
    ensures Mentions(p + [e], id) <==> Mentions(p, id) || e.id == id
  {
    if Mentions(p + [e], id) && e.id != id {
      var i :| 0 <= i < |p + [e]| && (p + [e])[i].id == id;
      assert p[i].id == id;
    }
    if Mentions(p, id) {
      var i :| 0 <= i < |p| && p[i].id == id;
      assert (p + [e])[i].id == id;
    }
    if e.id == id {
      assert (p + [e])[|p|].id == id;
    }
  }

  /** From the mounted state, an entity has a latest entry exactly when the stream mentions it. */
  lemma {:induction false} LatestKeys(evs: seq<GeoEvent>, id: string)
    ensures id in Run(Init(), evs).latest <==> Mentions(evs, id)
    decreases |evs|
  {
    if |evs| > 0 {
      var p := evs[..|evs| - 1];
      var e := evs[|evs| - 1];
      assert evs == p + [e];
      LatestKeys(p, id);
      MentionsSnoc(p, e, id);
    }
  }

  /**
    From the mounted state, an entity's latest entry is the stream's winner
    for it; `k` is the winner's position.
   */
  lemma {:induction false} LatestIsWinner(evs: seq<GeoEvent>, id: string) returns (k: int)
    requires id in Run(Init(), evs).latest
    ensures Winner(evs, id, k) && Run(Init(), evs).latest[id] == evs[k]
    decreases |evs|
  {
    var p := evs[..|evs| - 1];
    var e := evs[|evs| - 1];
    assert evs == p + [e];
    var before := Run(Init(), p).latest;
    assert Run(Init(), evs).latest == Update(before, e);
    if id in before {
      var j := LatestIsWinner(p, id);
      if e.id != id {
        WinnerKeptByOther(p, e, id, j);
        k := j;
      } else if e.time <= p[j].time {
        WinnerKeptByStale(p, e, id, j);
        k := j;
      } else {
        WinnerTakenByNewer(p, e, id, j);
        k := |p|;
      }
    } else {
      LatestKeys(p, id);
      WinnerFirst(p, e, id);
      k := |p|;
    }
  }

  /** At most one position of a stream is the winner for an entity. */
  lemma WinnerUnique(evs: seq<GeoEvent>, id: string, k1: int, k2: int)
    requires Winner(evs, id, k1) && Winner(evs, id, k2)
    ensures k1 == k2
  {
  }

  /**
    Two events for the same entity with different times: whichever order they
    arrive in, the later-timed one ends up stored, provided nothing stored
    already outranks it.
   */
  lemma LaterTimeWins(s: State, early: GeoEvent, late: GeoEvent)
    requires early.id == late.id && early.time < late.time
    requires late.id !in s.latest || s.latest[late.id].time < late.time
    ensures Run(s, [early, late]).latest[late.id] == late
    ensures Run(s, [late, early]).latest[late.id] == late
  {
    RunPair(s, early, late);
    RunPair(s, late, early);
    var first := Update(s.latest, early);
    assert first[late.id].time < late.time;
  }

  /** A two-event stream is two steps. */
  lemma RunPair(s: State, a: GeoEvent, b: GeoEvent)
    ensures Run(s, [a, b]) == Step(Step(s, a), b)
  {
    assert [a][..0] == [];
    assert Run(s, [a]) == Step(s, a);
    assert [a, b][..1] == [a];
  }

  /**
    From the mounted state, a fence has an occupancy entry exactly when some
    crossing of the stream was at it.
   */
  lemma {:induction false} FenceKeys(evs: seq<GeoEvent>, hook: string)
    ensures hook in Run(Init(), evs).occupancy <==> CrossedAt(evs, hook)
    decreases |evs|
  {
    if |evs| > 0 {
      var p := evs[..|evs| - 1];
      FenceKeys(p, hook);
      assert forall i :: 0 <= i < |p| ==> p[i] == evs[i];
      if CrossedAt(evs, hook) && !(evs[|p|].hook == hook && IsCrossing(evs[|p|].detect)) {
        var i :| 0 <= i < |evs| && evs[i].hook == hook && IsCrossing(evs[i].detect);
        assert p[i] == evs[i];
      }
    }
  }

  /**
    From the mounted state, `id` is inside `hook` exactly when it entered
    `hook` and no later `exit` of it from `hook` arrived: membership follows
    arrival order, whatever the event times.
   */
  lemma {:induction false} OccupancyIsLastCrossing(evs: seq<GeoEvent>, hook: string, id: string)
    ensures id in Occupants(Run(Init(), evs).occupancy, hook) <==> StaysInside(evs, hook, id)
    decreases |evs|
  {
    if |evs| > 0 {
      var p := evs[..|evs| - 1];
      var e := evs[|evs| - 1];
      assert evs == p + [e];
      OccupancyIsLastCrossing(p, hook, id);
      Membership(Run(Init(), p).occupancy, e, hook, id);
      StaysInsideSnoc(p, e, hook, id);
    }
  }

  /** How one more event moves the "entered and stayed" predicate: the same state machine. */
  lemma StaysInsideSnoc(p: seq<GeoEvent>, e: GeoEvent, hook: string, id: string)
    ensures StaysInside(p + [e], hook, id) <==>
      if Concerns(e, hook, id) && e.detect.Inside? then true
      else if Concerns(e, hook, id) && e.detect.Exit? then false
      else StaysInside(p, hook, id)
  {
    var evs := p + [e];
    var n := |p|;
    if Concerns(e, hook, id) && e.detect.Inside? {
      assert NoExitAfter(evs, n, hook, id);
      assert evs[n] == e;
    } else if Concerns(e, hook, id) && e.detect.Exit? {
      forall i | 0 <= i < |evs| && evs[i].detect.Inside? && Concerns(evs[i], hook, id)
        ensures !NoExitAfter(evs, i, hook, id)
      {
        assert evs[n] == e;
      }
    } else {
      if StaysInside(evs, hook, id) {
        var i :| 0 <= i < |evs| && evs[i].detect.Inside? && Concerns(evs[i], hook, id)
                 && NoExitAfter(evs, i, hook, id);
        assert i < n by { assert evs[n] == e; }
        assert evs[i] == p[i];
        assert NoExitAfter(p, i, hook, id) by {
          forall j | i < j < |p| ensures !(p[j].detect.Exit? && Concerns(p[j], hook, id)) {
            assert evs[j] == p[j];
          }
        }
      }
      if StaysInside(p, hook, id) {
        var i :| 0 <= i < n && p[i].detect.Inside? && Concerns(p[i], hook, id)
                 && NoExitAfter(p, i, hook, id);
        assert evs[i] == p[i];
        assert NoExitAfter(evs, i, hook, id);
      }
    }
  }

  /**
    The timestamp gate does not guard occupancy or the log: an `exit` that is
    stale for the entity's latest entry leaves that entry alone, yet still
    takes the entity out of the fence and is still logged.
   */
  lemma StaleExitStillEvicts(s: State, ev: GeoEvent)
    requires ev.detect.Exit? && !Accepts(s.latest, ev)
    ensures Step(s, ev).latest == s.latest
    ensures ev.id !in Occupants(Step(s, ev).occupancy, ev.hook)
    ensures Step(s, ev).history == s.history + [ev]
  {
  }
}
