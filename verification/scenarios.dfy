/**
  Concrete streams that pin the handler's behaviour down on small cases.
 */
module Scenarios {
  import opened Events
  import opened LatestStore
  import opened OccupancyTracker
  import opened Ingest

  function Ev(hook: string, id: string, detect: Detect, time: int): GeoEvent {
    GeoEvent(hook, id, detect, Coords(0.0, 0.0), time, "")
  }

  /**
    A enters F1, A leaves F1, B enters F1: only B is inside, all three are
    logged, and each entity holds its last event.
   */
  lemma EnterLeaveEnter()
    ensures var evs := [Ev("F1", "A", Inside, 1), Ev("F1", "A", Exit, 2), Ev("F1", "B", Inside, 3)];
      var r := Run(Init(), evs);
      && Occupants(r.occupancy, "F1") == {"B"}
      && r.history == evs
      && r.latest["A"] == evs[1]
      && r.latest["B"] == evs[2]
  {
    var evs := [Ev("F1", "A", Inside, 1), Ev("F1", "A", Exit, 2), Ev("F1", "B", Inside, 3)];
    assert evs[..2][..1] == evs[..1];
    assert evs[..1][..0] == [];
    var s1 := Step(Init(), evs[0]);
    var s2 := Step(s1, evs[1]);
    assert Run(Init(), evs[..1]) == s1;
    assert Run(Init(), evs[..2]) == s2;
    assert Occupants(s2.occupancy, "F1") == {};
  }

  /**
    An event for A older than the one stored is rejected by the latest store,
    yet the stale inside is still logged.
   */
  lemma StaleRejected()
    ensures var evs := [Ev("F1", "A", Inside, 5), Ev("F1", "A", Inside, 3)];
      var r := Run(Init(), evs);
      && !Accepts(Run(Init(), evs[..1]).latest, evs[1])
      && r.latest["A"] == evs[0]
      && |r.history| == 2
  {
    var evs := [Ev("F1", "A", Inside, 5), Ev("F1", "A", Inside, 3)];
    assert evs[..1][..0] == [];
    assert Run(Init(), evs[..1]) == Step(Init(), evs[0]);
  }

  /**
    A late-arriving, older exit evicts a membership established by a newer
    inside: occupancy follows arrival order while the marker keeps the newer
    event.
   */
  lemma StaleExitEvicts()
    ensures var evs := [Ev("F1", "A", Inside, 5), Ev("F1", "A", Exit, 3)];
      var r := Run(Init(), evs);
      && r.latest["A"] == evs[0]
      && r.latest["A"].detect.Inside?
      && "A" !in Occupants(r.occupancy, "F1")
  {
    var evs := [Ev("F1", "A", Inside, 5), Ev("F1", "A", Exit, 3)];
    assert evs[..1][..0] == [];
    assert Run(Init(), evs[..1]) == Step(Init(), evs[0]);
  }
}
