/**
  The per-entity store of the most recently accepted event.

  An event is accepted when its entity has no entry yet, or when its time is
  strictly later than the stored one; a stale or equal-time event is dropped.
  Entries are never removed.
 */
module LatestStore {
  import opened Events

  type Store = map<string, GeoEvent>

  /** Whether the handler replaces the entry for `ev.id` (and re-renders). */
  function Accepts(latest: Store, ev: GeoEvent): (accept: bool)
    // an accepted event is never the one already stored for its entity
    ensures accept ==> ev.id !in latest || latest[ev.id] != ev
    // a rejected event is for a known entity whose stored time is no earlier
    ensures !accept ==> ev.id in latest && latest[ev.id].time >= ev.time
  {
    ev.id !in latest || ev.time > latest[ev.id].time
  }

  /** The timestamp-gated replace of the entry for `ev.id`. */
  function Update(latest: Store, ev: GeoEvent): (r: Store)
    // keys only grow, by exactly the event's entity
    ensures r.Keys == latest.Keys + {ev.id}
    // the first event for an entity is always stored
    ensures ev.id !in latest ==> r[ev.id] == ev
    // a strictly newer event replaces the entry
    ensures ev.id in latest && ev.time > latest[ev.id].time ==> r[ev.id] == ev
    // an event no newer than the stored one changes nothing at all
    ensures ev.id in latest && ev.time <= latest[ev.id].time ==> r == latest
    // other entities keep their entries
    ensures forall id :: id in latest && id != ev.id ==> r[id] == latest[id]
    // stored times never decrease, and never fall behind the event just seen
    ensures forall id :: id in latest ==> r[id].time >= latest[id].time
    ensures r[ev.id].time >= ev.time
  {
    if Accepts(latest, ev) then latest[ev.id := ev] else latest
  }

  /** `Accepts` is exactly the condition under which the store changes. */
  lemma AcceptsIffChanged(latest: Store, ev: GeoEvent)
    ensures Accepts(latest, ev) <==> Update(latest, ev) != latest
  {
    if Accepts(latest, ev) {
      if ev.id in latest {
        assert Update(latest, ev)[ev.id].time != latest[ev.id].time;
      } else {
        assert ev.id in Update(latest, ev);
      }
    }
  }

  /** Replaying an event right after it was processed has no further effect. */
  lemma UpdateIdempotent(latest: Store, ev: GeoEvent)
    ensures Update(Update(latest, ev), ev) == Update(latest, ev)
  {
  }

  /** Every stored entry is filed under its own entity id. */
  ghost predicate Keyed(latest: Store) {
    forall id :: id in latest ==> latest[id].id == id
  }

  /** `Update` files the event under its own id, so it keeps `Keyed`. */
  lemma UpdateKeepsKeyed(latest: Store, ev: GeoEvent)
    requires Keyed(latest)
    ensures Keyed(Update(latest, ev))
  {
  }
}
