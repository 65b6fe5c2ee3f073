/**
  The records exchanged with the live geofence event channel.

  Coordinates and fence geometry are carried for display only: the
  reconciliation logic never does arithmetic on them. Timestamps are the
  instants the ISO strings denote, as whole milliseconds.
 */
module Events {

  /** Position of a tracked entity, longitude first as on the wire. */
  datatype Coords = Coords(lon: real, lat: real)

  /** A circular geofence from the static catalog. */
  datatype Fence = Fence(name: string, lat: real, lon: real, radius: real)

  /** A `detect` string the handler does not react to. */
  type OtherLabel = s: string | s != "inside" && s != "exit" witness ""

  /** What a geofence event reports: entering, leaving, or anything else. */
  datatype Detect = Inside | Exit | Other(text: OtherLabel)

  /** One message of the event channel. `hook` names the fence, `id` the entity. */
  datatype GeoEvent = GeoEvent(
    hook: string,
    id: string,
    detect: Detect,
    coords: Coords,
    time: int,
    formattedTime: string
  )

  /** Classifies the raw `detect` string the way the handler compares it. */
  function FromLabel(s: string): (d: Detect)
    // only the two exact strings are reacted to; anything else is `Other`
    ensures d.Other? <==> s != "inside" && s != "exit"
  {
    if s == "inside" then Inside
    else if s == "exit" then Exit
    else Other(s)
  }

  /** The raw string a `Detect` value stands for. */
  function ToLabel(d: Detect): string {
    match d
    case Inside => "inside"
    case Exit => "exit"
    case Other(s) => s
  }

  /** Classifying a raw label loses nothing. */
  lemma LabelRoundTrip(s: string)
    ensures ToLabel(FromLabel(s)) == s
    ensures FromLabel(s).Inside? <==> s == "inside"
    ensures FromLabel(s).Exit? <==> s == "exit"
  {
  }

  /** Every `Detect` value is the classification of its own label. */
  lemma DetectRoundTrip(d: Detect)
    ensures FromLabel(ToLabel(d)) == d
  {
  }

  /** The membership-changing kinds: the only ones logged and tracked per fence. */
  predicate IsCrossing(d: Detect) {
    d.Inside? || d.Exit?
  }

  /** The event reports on entity `id` at fence `hook`. */
  predicate Concerns(ev: GeoEvent, hook: string, id: string) {
    ev.hook == hook && ev.id == id
  }
}
