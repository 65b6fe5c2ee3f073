/**
  The render-ready views derived from the reconciliation state: one marker
  per tracked entity, the table rows, and whether each fence is active.
 */
module Views {
  import opened Events
  import opened LatestStore
  import opened OccupancyTracker
  import opened HistoryLog
  import opened Ingest
  import opened Replay

  /** The markers drawn on the map: the stored latest events. */
  function Markers(s: State): (r: set<GeoEvent>)
    // every stored latest event is drawn, and nothing else is
    ensures forall id :: id in s.latest ==> s.latest[id] in r
    ensures forall m :: m in r ==> exists id :: id in s.latest && s.latest[id] == m
    // in a consistent state each marker is the entry of its own entity
    ensures Wf(s) ==> forall m :: m in r ==> m.id in s.latest && s.latest[m.id] == m
  {
    s.latest.Values
  }

  /** The rows of the event table. */
  function TableRows(s: State): (r: seq<GeoEvent>)
    // in a consistent state every row is a crossing of an entity that has a marker
    ensures Wf(s) ==> forall k :: 0 <= k < |r| ==> IsCrossing(r[k].detect) && r[k].id in s.latest
  {
    s.history
  }

  /**
    A fence is drawn as active when it has an occupancy entry with someone
    in it; a fence with no entry reads as empty, hence inactive.
   */
  function AnyInside(s: State, name: string): (active: bool)
    ensures active <==> Occupants(s.occupancy, name) != {}
    ensures name !in s.occupancy ==> !active
  {
    if name in s.occupancy then |s.occupancy[name]| > 0 else false
  }

  /** The activity flag of every catalog fence, in catalog order. */
  function FenceStatus(fences: seq<Fence>, s: State): (r: seq<(string, bool)>)
    ensures |r| == |fences|
    ensures forall i :: 0 <= i < |r| ==> r[i].0 == fences[i].name
    ensures forall i :: 0 <= i < |r| ==> (r[i].1 <==> Occupants(s.occupancy, fences[i].name) != {})
  {
    seq(|fences|, i requires 0 <= i < |fences| => (fences[i].name, AnyInside(s, fences[i].name)))
  }

  /** A map whose entries are filed under their own ids has one value per key. */
  lemma {:induction false} KeyedValuesCount(m: Store)
    requires Keyed(m)
    ensures |m.Values| == |m.Keys|
    decreases |m.Keys|
  {
    if m.Keys != {} {
      var k :| k in m.Keys;
      var rest := m - {k};
      assert rest.Keys == m.Keys - {k};
      assert rest.Values == m.Values - {m[k]} by {
        forall v | v in m.Values - {m[k]} ensures v in rest.Values {
          var x :| x in m && m[x] == v;
          assert x != k;
          assert rest[x] == v;
        }
        forall v | v in rest.Values ensures v in m.Values - {m[k]} {
          var x :| x in rest && rest[x] == v;
          assert m[x] == v;
          assert v.id == x;
        }
      }
      KeyedValuesCount(rest);
    }
  }

  /** In a consistent state there is exactly one marker per tracked entity. */
  lemma MarkersOnePerId(s: State)
    requires Wf(s)
    ensures |Markers(s)| == |s.latest|
    ensures forall m :: m in Markers(s) ==> m.id in s.latest && s.latest[m.id] == m
    ensures forall id :: id in s.latest ==> s.latest[id] in Markers(s)
  {
    KeyedValuesCount(s.latest);
    forall m | m in Markers(s) ensures m.id in s.latest && s.latest[m.id] == m {
      var x :| x in s.latest && s.latest[x] == m;
    }
  }

  /** After any stream from the mounted state, the table is the stream's crossings in order. */
  lemma TableRowsAfterRun(evs: seq<GeoEvent>)
    ensures TableRows(Run(Init(), evs)) == Crossings(evs)
  {
    RunHistory(Init(), evs);
  }

  /** After any stream from the mounted state, a fence is active iff some entity entered it and stayed. */
  lemma ActivityAfterRun(evs: seq<GeoEvent>, name: string)
    ensures AnyInside(Run(Init(), evs), name) <==> exists id :: StaysInside(evs, name, id)
  {
    var occ := Run(Init(), evs).occupancy;
    if AnyInside(Run(Init(), evs), name) {
      var id :| id in Occupants(occ, name);
      OccupancyIsLastCrossing(evs, name, id);
    }
    if exists id :: StaysInside(evs, name, id) {
      var id :| StaysInside(evs, name, id);
      OccupancyIsLastCrossing(evs, name, id);
    }
  }

  /** A fence no crossing ever named is inactive, whether or not it is in the catalog. */
  lemma UncrossedFenceInactive(evs: seq<GeoEvent>, name: string)
    requires !CrossedAt(evs, name)
    ensures !AnyInside(Run(Init(), evs), name)
  {
    FenceKeys(evs, name);
  }
}
