/**
  The event log behind the table: every `inside` or `exit` event, in arrival
  order, with no cap.
 */
module HistoryLog {
  import opened Events

  /** The log effect of one event: crossings are appended, others ignored. */
  function Append(h: seq<GeoEvent>, ev: GeoEvent): (r: seq<GeoEvent>)
    // the log is append-only and grows by at most the one event
    ensures h <= r && |r| <= |h| + 1
    ensures |r| == |h| + 1 <==> IsCrossing(ev.detect)
  {
    if IsCrossing(ev.detect) then h + [ev] else h
  }

  /** The arrival-order filter of `evs` keeping only `inside` and `exit` events. */
  function Crossings(evs: seq<GeoEvent>): (r: seq<GeoEvent>)
    ensures |r| <= |evs|
    ensures forall k :: 0 <= k < |r| ==> IsCrossing(r[k].detect)
    ensures forall i :: 0 <= i < |evs| && IsCrossing(evs[i].detect) ==> evs[i] in r
    ensures forall e :: e in r ==> e in evs
    decreases |evs|
  {
    if |evs| == 0 then []
    else Append(Crossings(evs[..|evs| - 1]), evs[|evs| - 1])
  }

  /** Filtering distributes over concatenation: arrival order is kept. */
  lemma {:induction false} CrossingsConcat(a: seq<GeoEvent>, b: seq<GeoEvent>)
    ensures Crossings(a + b) == Crossings(a) + Crossings(b)
    decreases |b|
  {
    if |b| == 0 {
      assert a + b == a;
    } else {
      var b' := b[..|b| - 1];
      assert (a + b)[..|a + b| - 1] == a + b';
      CrossingsConcat(a, b');
    }
  }

  /** A log of only crossings is its own filter. */
  lemma {:induction false} CrossingsOfCrossings(evs: seq<GeoEvent>)
    requires forall k :: 0 <= k < |evs| ==> IsCrossing(evs[k].detect)
    ensures Crossings(evs) == evs
    decreases |evs|
  {
    if |evs| > 0 {
      var p := evs[..|evs| - 1];
      CrossingsOfCrossings(p);
      assert p + [evs[|evs| - 1]] == evs;
    }
  }

  /** Nothing is logged exactly when the input has no crossing at all. */
  lemma {:induction false} CrossingsEmpty(evs: seq<GeoEvent>)
    ensures Crossings(evs) == [] <==> forall i :: 0 <= i < |evs| ==> !IsCrossing(evs[i].detect)
    decreases |evs|
  {
    if |evs| > 0 {
      var p := evs[..|evs| - 1];
      CrossingsEmpty(p);
      assert forall i :: 0 <= i < |p| ==> p[i] == evs[i];
    }
  }
}
