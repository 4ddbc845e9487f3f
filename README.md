# Waypoint traversal and waypoint index management

This project models the two waypoint components of a Unity package in Dafny.

- `PathSystem` (`WaypointSystem.cs`) moves an agent through a list of waypoints, one frame at a time. It keeps three things:
  - a waypoint counter `points`;
  - a dwell deadline `timer`;
  - the agent's position `pos`.

  Each frame, once the deadline has passed, the agent moves towards the current waypoint by at most `speed * dt`. When it lands exactly on the waypoint, the counter goes up by one and a dwell of `waitingTimer` seconds starts. A counter equal to the list length means "heading back to waypoint 0". Arriving there resets the counter to 0.
- `WaypointsSystem` (`WaypointsSystem.cs`) holds a waypoint list and the index of the current waypoint. It can:
  - step the index forward, going back to 0 after the last waypoint;
  - set the index by hand, with a bounds check;
  - append a waypoint or clear the list;
  - read the current waypoint and the agent's distance to it.

Files:
- `wrappers.dfy` (module `Wrappers`): the `Option` type, for a step that may fault and a parameter that may be omitted.
- `geometry.dfy` (module `Geometry`): positions, `Distance` and the engine's `MoveTowards`, on one axis with exact reals.
- `path_system.dfy` (module `Path`): the pure step function `Next`, the lemmas about it, and the class `PathSystem`. The class's `Step` method changes its fields in place and is proved equal to `Next`.
- `waypoints_system.dfy` (module `Waypoints`): the index rule `NextIndex`, its repeated form `Advance`, the lemmas about them, and the class `WaypointsSystem`.

Engine inputs become parameters:
- the clock `Time.time` is `now`;
- the frame time `Time.deltaTime` is `dt`;
- the waypoint list of `PathSystem` is passed to each `Step`.

The reads `waypoints[_points]` and `waypoints[0]` in `MoveToNextWaypoint` can fall outside the list. The model does not forbid this with a precondition. `Step` returns `ok == false` where the engine would raise its index exception, and the state is left unchanged, because the exception happens before any assignment. `Next` returns `None` in the same case.

The one deliberate departure from the code is `WaypointSystem.cs:63`. That line assigns `Time.time + waitingTimer`, a `float`, to the `int` counter `_points`, which does not type-check. The wrap branch is modelled only up to `_points = 0` (line 62), and the dwell deadline is left unchanged. This departure decides only the timing of the repeat arrival at waypoint 0 described below: with the deadline unchanged, it comes on the very next frame, with no dwell before it (`WrapArrivalRepeatsWaypointZero`).

Hazards of the code that the model keeps as they are:
- With an empty list, a step faults as soon as the dwell deadline has passed (`FaultOnlyOnEmptyList`).
- After a wrap arrival the agent is counted as arriving at waypoint 0 twice: line 62 resets the counter to 0, not 1, so the next step past the deadline targets waypoint 0 again (line 44), where the agent already stands, and lines 47-50 count a second arrival and set a new deadline (`StandingOnWaypointZeroArrives`).
- `NewWaypoint(index)` accepts `index == Count`, which leaves an index that addresses no waypoint (`CountIndexAcceptedOutOfRange`).

Arrival is tested by equality of the moved position with the target. The engine's vector equality is approximate; here it is exact (see "## Left out").

## Model

| member | source | states |
|---|---|---|
| Geometry.Distance | WaypointsSystem.cs:32 | the distance is non-negative, is zero exactly when the two positions are equal, and is the difference of the two coordinates |
| Geometry.MoveTowards | WaypointSystem.cs:44 | returns exactly the target when the target is already reached or within `maxDelta`; otherwise moves exactly `maxDelta` closer (a negative `maxDelta` moves away); a non-negative step never passes the target |
| Geometry.MoveTowardsStrictlyCloser | WaypointSystem.cs:57 | a positive step that does not reach the target strictly reduces the distance to it |
| Path.TargetIndex | WaypointSystem.cs:41-57 | with the counter in range over a non-empty list, the target is waypoint `points` below the sentinel and waypoint 0 at the sentinel |
| Path.Next | WaypointSystem.cs:36-66 | a step faults exactly when the deadline has passed and the counter addresses no waypoint (negative, above the count, or an empty list); a counter within [0, count] stays within [0, count] |
| Path.DwellKeepsState | WaypointSystem.cs:41 | while `now` is before the dwell deadline, position, counter and deadline are all unchanged |
| Path.FaultOnlyOnEmptyList | WaypointSystem.cs:54-57 | with the counter in range, a step faults if and only if the list is empty and the deadline has passed |
| Path.ArrivalAdvances | WaypointSystem.cs:41-51 | on arrival at a regular waypoint, the counter goes up by exactly one, the deadline becomes `now + waitingTimer`, and the agent is on that waypoint |
| Path.WrapArrivalResets | WaypointSystem.cs:54-62 | on arrival during the wrap leg, the counter becomes 0, the agent is on waypoint 0, and the deadline is unchanged |
| Path.NoArrivalOnlyMoves | WaypointSystem.cs:47-60 | without arrival only the position changes; with a positive step it gets strictly closer to the target |
| Path.ReachableArrivesThisFrame | WaypointSystem.cs:38-50 | when `speed * dt` covers the distance to the target, the agent arrives in that frame, with the counter and deadline updates of the branch it is in |
| Path.DwellHonoredAfterArrival | WaypointSystem.cs:47-54 | after an arrival at time `now`, every later frame before `now + waitingTimer` leaves the whole state unchanged |
| Path.ArrivalTargetsNextInCycle | WaypointSystem.cs:41-57 | after arriving at a regular waypoint `i` (counter below the count), the next target is waypoint `(i + 1) mod count` |
| Path.StandingOnWaypointZeroArrives | WaypointSystem.cs:41-50 | with the counter at 0 and the agent already on waypoint 0, a step past the deadline arrives there at once, whatever the frame time: the counter becomes 1 and the deadline `now + waitingTimer` |
| Path.WrapArrivalRepeatsWaypointZero | WaypointSystem.cs:54-63 | with the deadline left unchanged at line 63, after the wrap arrival, the next frame from `now` on arrives at waypoint 0 again and starts a dwell there, whatever the frame time |
| Path.PathSystem.constructor | WaypointSystem.cs:19-22 | a new component starts with counter 0, deadline 0 and the given position |
| Path.PathSystem.Awake | WaypointSystem.cs:25-28 | sets the counter to 0 whatever its value and changes nothing else, so calling it again has no further effect |
| Path.PathSystem.Step | WaypointSystem.cs:36-66 | the new fields are those of `Next`, or unchanged when it faults; before the deadline nothing changes; over a non-empty list a counter in range never faults and stays in range |
| Waypoints.NextIndex | WaypointsSystem.cs:52-69 | the index rule of `NewWaypoint`: a non-negative index stays non-negative, and the new index is always the manual index, the old index, the next one or 0 |
| Waypoints.ManualIndexRule | WaypointsSystem.cs:52-62 | a manual index from 0 up to and including the count is taken; a larger one leaves the index unchanged |
| Waypoints.CountIndexAcceptedOutOfRange | WaypointsSystem.cs:55-62 | the manual index equal to the count is accepted and leaves an index that addresses no waypoint |
| Waypoints.IncrementLandsInRange | WaypointsSystem.cs:66-69 | stepping forward from any non-negative index over a non-empty list lands on a valid index |
| Waypoints.IncrementIsModular | WaypointsSystem.cs:66-69 | from a valid index, stepping forward gives `(index + 1) mod count` |
| Waypoints.AdvanceWithinLap | WaypointsSystem.cs:66-69 | `k` forward steps, with `k` at most the count, add `k` to a valid index and subtract the count once the end is passed |
| Waypoints.AdvanceIsModular | WaypointsSystem.cs:66-69 | `k` forward steps, with `k` at most the count, give `(index + k) mod count` |
| Waypoints.FullCycleReturns | WaypointsSystem.cs:45-47 | calling the forward step once per waypoint brings a valid index back to where it started |
| Waypoints.WaypointsSystem.constructor | WaypointsSystem.cs:9-11 | a new component has an empty list and index 0 |
| Waypoints.WaypointsSystem.GetLastestLocation | WaypointsSystem.cs:13 | needs an index that addresses the list; the result is the list element at that index |
| Waypoints.WaypointsSystem.WaypointDistance | WaypointsSystem.cs:39-43 | needs an index in range; the distance to the current waypoint is non-negative and zero exactly when standing on it |
| Waypoints.WaypointsSystem.IsNearToWaypoint | WaypointsSystem.cs:29-33 | needs an index in range; true exactly when the distance to the current waypoint is strictly greater than the given one, so false when standing on it |
| Waypoints.WaypointsSystem.NewWaypoint | WaypointsSystem.cs:49-71 | the new index follows `NextIndex`: a manual index from 0 to the count is taken, a larger one is ignored; the default step lands in range on a non-empty list and is `(old + 1) mod count` from a valid index; the list is unchanged |
| Waypoints.WaypointsSystem.AddPoint | WaypointsSystem.cs:77-91 | the list grows by exactly one element at its end (the given position, or 0 when none is given); earlier elements and the index are unchanged |
| Waypoints.WaypointsSystem.ClearAllWaypoints | WaypointsSystem.cs:96-99 | the list becomes empty and the index is not reset, so it addresses no waypoint afterwards |

## Left out

- Three-dimensional float vectors. Positions are exact reals on one axis. `Vector3.MoveTowards` and `Vector3.Distance` are defined on that axis; the engine's own code is not part of this model. Unity's approximate `Vector3 ==` is modelled as exact equality, so float drift that stops an exact arrival is not captured.
- `WaypointSystem.cs:63` assigns a float to the integer counter and does not type-check. The model stops the wrap branch at line 62 and keeps the deadline unchanged. `Path.WrapArrivalResets` and `Path.WrapArrivalRepeatsWaypointZero` state what happens on and after a wrap arrival; both hold only under this departure, not for any program the source could compile to.
- Waypoints.WaypointsSystem.GetLastestLocation, Waypoints.WaypointsSystem.WaypointDistance, Waypoints.WaypointsSystem.IsNearToWaypoint: the source reads `waypointList[_currentPoint]` and throws when the index is out of range, a state reachable through `ClearAllWaypoints` or `NewWaypoint(Count)`. The model turns that exception into a precondition (an index that addresses the list) instead of modelling the error path.
- The scalars `Time.time`, `_timer`, `waitingTimer`, `speed` and `Time.deltaTime` are floats in the source and exact reals here, so `speed * dt` and the deadline `now + waitingTimer` (as in `Path.ArrivalAdvances` and `Path.DwellHonoredAfterArrival`) ignore float rounding.
- `Update` (`WaypointSystem.cs:30-33`) is the engine's per-frame hook; `Step` is its body with the clock passed in.
- `OnDrawGizmos` in both files is debug drawing only. This includes the check `Count < 0`, which can never hold.
- The scene-graph work in `AddPoint` and `ClearAllWaypoints` is not modelled: creating, naming and parenting the marker object, and the loop that destroys child objects. `AddPoint` stores the marker's local position as its position.
- `Debug.LogWarning` in `NewWaypoint` is not modelled; the rejected call only leaves the index unchanged.
- Null transforms in the lists, and the exceptions they would raise, are not modelled.
- `WaypointEditor.cs` is an inspector panel with no behaviour of its own. `IWaypoint.cs` only declares signatures.
- `Waypoints.AdvanceIsModular` is stated for at most one lap of forward steps (`k` up to the count). That is enough for the full-cycle property.
