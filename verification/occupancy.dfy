/**
  The per-fence sets of entities currently inside.

  A fence with no entry is read as having no occupants. An `inside` or `exit`
  event creates the entry for its fence when missing and adds or removes the
  entity; any other event has no effect. Membership follows arrival order,
  not event time.
 */
module OccupancyTracker {
  import opened Events

  type Occupancy = map<string, set<string>>

  /** The entities inside `hook`; a fence never seen has none. */
  function Occupants(occ: Occupancy, hook: string): (r: set<string>)
    // only fences with an entry can have occupants, and an entry is read as is
    ensures r != {} ==> hook in occ
    ensures hook in occ ==> r == occ[hook]
  {
    if hook in occ then occ[hook] else {}
  }

  /** The occupancy effect of one event. */
  function Apply(occ: Occupancy, ev: GeoEvent): (r: Occupancy)
    ensures ev.detect.Inside? ==> Occupants(r, ev.hook) == Occupants(occ, ev.hook) + {ev.id}
    ensures ev.detect.Exit? ==> Occupants(r, ev.hook) == Occupants(occ, ev.hook) - {ev.id}
    // a crossing event materialises its fence's entry, even an exit from an empty fence
    ensures IsCrossing(ev.detect) ==> r.Keys == occ.Keys + {ev.hook}
    ensures !IsCrossing(ev.detect) ==> r == occ
    // other fences are untouched
    ensures forall h :: h != ev.hook ==> (h in r <==> h in occ)
    ensures forall h :: h != ev.hook && h in occ ==> r[h] == occ[h]
  {
    match ev.detect
    case Inside => occ[ev.hook := Occupants(occ, ev.hook) + {ev.id}]
    case Exit => occ[ev.hook := Occupants(occ, ev.hook) - {ev.id}]
    case Other(_) => occ
  }

  /**
    The per-(fence, entity) state machine: an `inside` for the pair makes it
    inside, an `exit` for the pair makes it outside, everything else leaves
    the pair where it was.
   */
  lemma Membership(occ: Occupancy, ev: GeoEvent, hook: string, id: string)
    ensures id in Occupants(Apply(occ, ev), hook) <==>
      if Concerns(ev, hook, id) && ev.detect.Inside? then true
      else if Concerns(ev, hook, id) && ev.detect.Exit? then false
      else id in Occupants(occ, hook)
  {
  }

  /** Applying the same event twice is the same as applying it once. */
  lemma ApplyIdempotent(occ: Occupancy, ev: GeoEvent)
    ensures Apply(Apply(occ, ev), ev) == Apply(occ, ev)
  {
    var once := Apply(occ, ev);
    if IsCrossing(ev.detect) {
      assert Occupants(Apply(once, ev), ev.hook) == Occupants(once, ev.hook);
      assert Apply(once, ev)[ev.hook] == once[ev.hook];
    }
  }

  /** An `exit` for an entity that is not inside leaves the fence's set as it was. */
  lemma ExitOfAbsentIsNoop(occ: Occupancy, ev: GeoEvent)
    requires ev.detect.Exit? && ev.id !in Occupants(occ, ev.hook)
    ensures Occupants(Apply(occ, ev), ev.hook) == Occupants(occ, ev.hook)
  {
  }

  /** Outside, then `inside`, then `exit` of the same pair: back to the original set. */
  lemma InsideThenExitRestores(occ: Occupancy, enter: GeoEvent, leave: GeoEvent)
    requires enter.detect.Inside? && leave.detect.Exit?
    requires Concerns(leave, enter.hook, enter.id)
    requires enter.id !in Occupants(occ, enter.hook)
    ensures Occupants(Apply(Apply(occ, enter), leave), enter.hook) == Occupants(occ, enter.hook)
  {
  }
}
