# Geofence event reconciliation

A Dafny model of the event-reconciliation engine inside the `MapView`
component of a geofence visualiser. The component subscribes to a stream of
`geofence_event` messages, each saying that a tracked entity (`id`) is
`inside`, has made an `exit` from, or reports something else about a fence
(`hook`). For every message the handler:

1. replaces the entity's latest event if it has none yet or the message is
   strictly newer (the timestamp gate);
2. for `inside`/`exit` only, appends the message to the history table and adds
   the entity to, or removes it from, the fence's occupancy set. This part is
   not gated by the timestamp check: a stale event still moves occupancy and
   is still logged.

The render code derives pure views from that state. Markers are the latest
events. Table rows are the history. A fence is drawn active when its
occupancy set exists and is non-empty.

The model is a pure `Step` over an immutable `State` (latest map, occupancy
map, history sequence) and `Run`, the left fold of `Step` over a delivered
stream. The modules mirror the components:

- `Events`: the message and fence records.
- `LatestStore`: the timestamp-gated store.
- `OccupancyTracker`: the per-fence membership sets.
- `HistoryLog`: the crossing filter.
- `Ingest`: the step and the fold.
- `Replay`: what a whole stream leaves behind, stated without the step function.
- `Views`: markers, rows and fence activity.
- `Scenarios`: small concrete streams.

Timestamps are modelled as integers: the millisecond instants that the ISO
strings denote. The handler compares them through `new Date(...)`.

The handler validates nothing, keeps no cap on the history, and logs every
`inside`/`exit` message, including those the timestamp gate rejected.

## Model

| member | source | states |
|---|---|---|
| Events.FromLabel | src/components/MapView.tsx:62-66 | Only the exact strings `"inside"` and `"exit"` are reacted to; every other string is `Other`. `Events.LabelRoundTrip` and `Events.DetectRoundTrip` show the classification is a bijection. |
| Events.LabelRoundTrip | src/components/MapView.tsx:62-66 | Classifying a raw `detect` string (`"inside"`, `"exit"`, anything else) loses nothing. `Inside`/`Exit` arise exactly from those two strings. |
| Events.DetectRoundTrip | src/components/MapView.tsx:28 | Every `detect` value is the classification of its own string; an `Other` label can never be `"inside"` or `"exit"`. |
| LatestStore.Accepts | src/components/MapView.tsx:54 | An accepted event is never the one already stored for its entity. A rejected event is for a known entity whose stored time is no earlier. `LatestStore.AcceptsIffChanged` characterises it as "the store changes". |
| LatestStore.Update | src/components/MapView.tsx:53-60 | The first event for an entity is always stored. A strictly newer one replaces it. One no newer leaves the store completely unchanged. Keys grow by exactly `ev.id`. Other entities are untouched. No stored time decreases, and the stored time for `ev.id` is at least `ev.time`. |
| LatestStore.AcceptsIffChanged | src/components/MapView.tsx:54-59 | The gate condition (the one that triggers a re-render) holds exactly when the store changes. |
| LatestStore.UpdateIdempotent | src/components/MapView.tsx:53-58 | Redelivering the event just handled does not change the store. |
| LatestStore.UpdateKeepsKeyed | src/components/MapView.tsx:55-58 | Every entry stays filed under its own entity id. |
| OccupancyTracker.Occupants | src/components/MapView.tsx:64 | Only a fence with an entry can have occupants, and an existing entry is read as is: an absent fence counts as empty. |
| OccupancyTracker.Apply | src/components/MapView.tsx:62-76 | `inside` adds the entity to the fence's set and `exit` removes it, with an absent entry read as empty. A crossing creates the fence's entry, even an exit from an unseen fence. Non-crossings change nothing. Other fences are untouched. |
| OccupancyTracker.Membership | src/components/MapView.tsx:64-76 | For each (fence, entity) pair: `inside` makes it a member, `exit` makes it a non-member, any other event leaves membership as it was. |
| OccupancyTracker.ApplyIdempotent | src/components/MapView.tsx:64-76 | Applying the same event twice equals applying it once, e.g. a repeated `inside` leaves the entity present once. |
| OccupancyTracker.ExitOfAbsentIsNoop | src/components/MapView.tsx:71-76 | Exiting an entity that is not inside leaves the fence's set unchanged. |
| OccupancyTracker.InsideThenExitRestores | src/components/MapView.tsx:66-76 | Starting outside, `inside` followed by `exit` of the same pair gives back the original set. |
| HistoryLog.Append | src/components/MapView.tsx:62-63 | The log is append-only: the old log is a prefix of the new one, which is one longer exactly when the event is an `inside`/`exit`. `Replay.RunHistory` characterises the log over a whole stream. |
| HistoryLog.Crossings | src/components/MapView.tsx:62-63 | The arrival-order filter is no longer than its input. It holds only `inside`/`exit` events and every one of the input's crossings. |
| HistoryLog.CrossingsConcat | src/components/MapView.tsx:62-63 | Filtering distributes over concatenation, so arrival order is preserved. |
| HistoryLog.CrossingsOfCrossings | src/components/MapView.tsx:62-63 | A stream of crossings only is logged in full, in order. |
| HistoryLog.CrossingsEmpty | src/components/MapView.tsx:62-63 | Nothing is logged exactly when the stream has no `inside`/`exit` event. |
| Ingest.Step | src/components/MapView.tsx:51-81 | Non-crossings leave occupancy and history alone. Crossings are appended to history whether or not the latest store accepted them. `latest` changes at most at `ev.id`, and occupancy changes at most at `ev.hook`. |
| Ingest.Run | src/components/MapView.tsx:51-81 | Over any stream, latest keys and fence keys only grow. The old history is a prefix of the new one, which grows by at most one entry per event. |
| Ingest.RunAppend | src/components/MapView.tsx:51-81 | Handling a stream in two pieces equals handling it in one. |
| Ingest.RunCons | src/components/MapView.tsx:51-81 | The first delivered event is handled first, then the rest. |
| Ingest.InitWf | src/components/MapView.tsx:36-41 | The freshly mounted state (empty maps, empty history) is consistent. |
| Ingest.StepKeepsWf | src/components/MapView.tsx:51-76 | One step keeps the state consistent. Entries stay under their own id. Occupants and logged entities have a latest entry. The log holds only crossings. Every fence entry comes from a logged crossing. |
| Ingest.RunKeepsWf | src/components/MapView.tsx:51-81 | Any stream keeps the state consistent. |
| Replay.RunHistory | src/components/MapView.tsx:62-63 | After a stream, the history is the old history followed by exactly the stream's `inside`/`exit` events in arrival order. So its growth equals the number of such events. |
| Replay.RunMonotone | src/components/MapView.tsx:53-60 | Over any stream, every entity's stored time never decreases. It ends no earlier than any event delivered for that entity. |
| Replay.RunLeavesOtherEntities | src/components/MapView.tsx:55-58 | An entity the stream never mentions keeps its entry, or its absence. |
| Replay.RunLeavesOtherFences | src/components/MapView.tsx:64-76 | A fence the stream never crosses keeps its occupancy entry, or its absence. |
| Replay.LatestKeys | src/components/MapView.tsx:53-58 | From the mounted state, an entity has a latest entry exactly when some delivered event mentions it. |
| Replay.LatestIsWinner | src/components/MapView.tsx:53-60 | From the mounted state, an entity's entry is the first-arrived of its latest-timed events. |
| Replay.WinnerUnique | src/components/MapView.tsx:53-60 | That winning event is unique. |
| Replay.LaterTimeWins | src/components/MapView.tsx:53-60 | Take two events for one entity with `t1 < t2`, where nothing already stored is as late as `t2`. In either arrival order, the `t2` event ends up stored. |
| Replay.FenceKeys | src/components/MapView.tsx:62-76 | From the mounted state, a fence has an occupancy entry exactly when some `inside`/`exit` named it. |
| Replay.OccupancyIsLastCrossing | src/components/MapView.tsx:62-76 | From the mounted state, an entity is inside a fence exactly when it entered the fence and no later-arriving `exit` of it from that fence followed. Event times play no part. |
| Replay.StaysInsideSnoc | src/components/MapView.tsx:64-76 | Extending a stream by one event moves the "entered and stayed" predicate by the same per-pair state machine as the occupancy step. |
| Replay.StaleExitStillEvicts | src/components/MapView.tsx:53-76 | An `exit` that the timestamp gate rejects leaves `latest` unchanged. It still removes the entity from the fence and is still logged. |
| Views.FenceStatus | src/components/MapView.tsx:105-107 | One flag per catalog fence, in catalog order. Each flag holds exactly when the fence has an occupant, with an absent entry read as empty. |
| Views.AnyInside | src/components/MapView.tsx:107 | "Entry exists and its size is positive" is the same as "occupants, with absent read as empty, are non-empty"; a fence without an entry is inactive. `Views.ActivityAfterRun` characterises it over a stream. |
| Views.Markers | src/components/MapView.tsx:88 | Every stored latest event is a marker and every marker is a stored latest event; in a consistent state each marker is the entry of its own entity. `Views.MarkersOnePerId` adds the count. |
| Views.TableRows | src/components/MapView.tsx:89 | In a consistent state every row is an `inside`/`exit` event of an entity that has a marker. `Views.TableRowsAfterRun` characterises the rows over a stream. |
| Views.MarkersOnePerId | src/components/MapView.tsx:88 | In a consistent state, the markers are exactly the stored latest events, one per tracked entity. Their number equals the number of entities. |
| Views.TableRowsAfterRun | src/components/MapView.tsx:89 | From the mounted state, the table rows are the stream's `inside`/`exit` events in arrival order. |
| Views.ActivityAfterRun | src/components/MapView.tsx:107 | From the mounted state, a fence is active exactly when some entity entered it and did not exit it afterwards. |
| Views.UncrossedFenceInactive | src/components/MapView.tsx:107 | A fence no `inside`/`exit` ever named is inactive, including catalog fences with no events at all. |
| Scenarios.EnterLeaveEnter | src/components/MapView.tsx:51-81 | A enters F1 (t=1), A exits (t=2), B enters (t=3). Afterwards F1 holds just B, all three are logged, A holds its exit and B its inside. |
| Scenarios.StaleRejected | src/components/MapView.tsx:53-63 | A inside at t=5, then A inside at t=3. The second is not accepted and A keeps the t=5 event, but both are logged. |
| Scenarios.StaleExitEvicts | src/components/MapView.tsx:53-76 | A inside at t=5, then a late-arriving exit at t=3. A's marker keeps the newer inside, yet A is no longer in F1. |

## Left out

- The fetch of the fence catalog (src/components/MapView.tsx:43-47): network I/O. The catalog appears only as the `fences` parameter of `Views.FenceStatus`.
- The socket connection and its teardown (src/components/MapView.tsx:49-50, 82-84): network I/O. The stream is the `evs` parameter of `Ingest.Run`.
- JSX rendering, Leaflet icon setup, colours, tooltips, table markup and the `console.log` (src/components/MapView.tsx:14-17, 91-173): presentation only.
- The `tick` re-render counter and React `useRef`/`useState` mechanics: framework plumbing. The state is a plain value threaded through `Ingest.Step`. `LatestStore.Accepts` is the condition under which `tick` fires.
- Timestamp parsing: `time` is the integer instant the ISO string denotes. An unparsable string becomes `NaN` in the source, where every comparison is false. Such an event would be stored for an unseen entity and never accepted for a known one, and a stored unparsable time would freeze the entry. The model assumes every time parses.
- Coordinates and fence geometry are opaque `real` fields with no arithmetic. They are display-only.
- Message validation and a history capacity: the handler has neither, so the model has neither.
- Views.Markers: the marker order is not modelled. `Object.values` lists ids that look like array indices first, in ascending numeric order (`"2"` before `"10"`), and then the other ids in the order they were first seen, because the spread at src/components/MapView.tsx:55-58 keeps each key's creation position. `Views.Markers` is the set of stored events, without an order.
- LatestStore.Update, OccupancyTracker.Apply, Views.AnyInside: ids and fence names that collide with `Object.prototype` property names (such as `constructor`, `__proto__`, `toString`) are not modelled; the model treats both stores as plain maps. In the source such an entity id finds a truthy non-event at src/components/MapView.tsx:53, whose missing `time` makes the comparison false, so the entity is never stored. Such a hook finds a truthy non-`Set` at src/components/MapView.tsx:64: `add` (:69) or `delete` (:72) throws after `latest` has been updated and the history append (:63) has been queued, so occupancy stays unchanged. A catalog fence with such a name reads `.size` as undefined at src/components/MapView.tsx:107 and is always drawn inactive. The model instead stores the entity, changes the hook's set, and can report the fence active.
- In-place mutation and aliasing of the occupancy `Set` (src/components/MapView.tsx:64-72): modelled as immutable sets with the same observable result.
