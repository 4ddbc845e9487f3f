/** The index-management layer of the `WaypointsSystem` component: a list of
    waypoint positions and the index of the current one.

    `NextIndex` is the rule `NewWaypoint` applies to the index; the class
    `WaypointsSystem` updates its fields in place and is proved against it.
 */
module Waypoints {
  import opened Geometry
  import opened Wrappers

  /** The index after `NewWaypoint(index)` on a list of `count` waypoints.
      A negative `index` (the default, -1) asks for the next waypoint, going
      back to 0 past the last one; a non-negative `index` is taken as long as
      it is not above `count`, and otherwise ignored. */
  function NextIndex(current: int, count: nat, index: int): (r: int)
    // a non-negative index stays non-negative
    ensures 0 <= current ==> 0 <= r
    // the new index is the manual one, the old one, the next one or 0
    ensures r == index || r == current || r == current + 1 || r == 0
  {
    if index >= 0 then
      if index > count then current else index
    else
      if current + 1 > count - 1 then 0 else current + 1
  }

  /** The index after `k` calls of `NewWaypoint()` with the default argument. */
  function Advance(current: int, count: nat, k: nat): (r: int)
    decreases k
  {
    if k == 0 then current else NextIndex(Advance(current, count, k - 1), count, -1)
  }

  /** A manual index from 0 to `count` inclusive is taken as given; the bound
      check lets `count` itself through. A larger one changes nothing. */
  lemma ManualIndexRule(current: int, count: nat, index: int)
    requires 0 <= index
    ensures index <= count ==> NextIndex(current, count, index) == index
    ensures count < index ==> NextIndex(current, count, index) == current
  {
  }

  /** `NewWaypoint(count)` is accepted and leaves an index that addresses no
      waypoint, so a following `GetLastestLocation` would read past the end. */
  lemma CountIndexAcceptedOutOfRange(current: int, count: nat)
    ensures NextIndex(current, count, count) == count
    ensures !(0 <= NextIndex(current, count, count) < count)
  {
  }

  /** Stepping to the next waypoint lands on a valid index of a non-empty
      list, whatever index it starts from (0 and up). */
  lemma IncrementLandsInRange(current: int, count: nat)
    requires 0 <= current && 0 < count
    ensures 0 <= NextIndex(current, count, -1) < count
  {
  }

  /** From a valid index, stepping to the next waypoint is addition modulo
      the list length. */
  lemma IncrementIsModular(current: int, count: nat)
    requires 0 <= current < count
    ensures NextIndex(current, count, -1) == (current + 1) % count
  {
    if current + 1 < count {
      assert (current + 1) % count == current + 1;
    } else {
      assert current + 1 == count;
    }
  }

  /** The arithmetic step `AdvanceIsModular` needs: a value within one lap past `n` reduces by `n`. */
  lemma ModOfWrapOnce(x: int, n: nat)
    requires 0 < n <= x < 2 * n
    ensures x % n == x - n
  {
  }

  /** Within one lap, `k` steps from a valid index advance it by `k`, going
      back to 0 past the last waypoint. */
  lemma {:induction false} AdvanceWithinLap(current: int, count: nat, k: nat)
    requires 0 <= current < count && k <= count
    ensures Advance(current, count, k) ==
              if current + k < count then current + k else current + k - count
  {
    if k > 0 {
      AdvanceWithinLap(current, count, k - 1);
    }
  }

  /** The same as addition modulo the list length. */
  lemma AdvanceIsModular(current: int, count: nat, k: nat)
    requires 0 <= current < count && k <= count
    ensures Advance(current, count, k) == (current + k) % count
  {
    AdvanceWithinLap(current, count, k);
    if count <= current + k {
      ModOfWrapOnce(current + k, count);
    }
  }

  /** Calling `NewWaypoint()` once per waypoint brings the index back to
      where it started: the list is looped through. */
  lemma FullCycleReturns(current: int, count: nat)
    requires 0 <= current < count
    ensures Advance(current, count, count) == current
  {
    AdvanceIsModular(current, count, count);
    assert (current + count) % count == current;
  }

  /** The `WaypointsSystem` component: the waypoint list and current index. */
  class WaypointsSystem {
    var waypointList: seq<Position>
    var currentPoint: int

    /** The current index is never negative: it starts at 0 and only
        `NewWaypoint` changes it. */
    predicate Valid()
      reads this
    {
      0 <= currentPoint
    }

    /** A fresh component: no waypoints, index 0. */
    constructor ()
      ensures Valid() && waypointList == [] && currentPoint == 0
    {
      waypointList := [];
      currentPoint := 0;
    }

    /** The current waypoint (`GetLastestLocation`); reading it needs an index
        that addresses the list. */
    function GetLastestLocation(): (p: Position)
      reads this
      requires 0 <= currentPoint < |waypointList|
      ensures p in waypointList
      ensures p == waypointList[currentPoint]
    {
      waypointList[currentPoint]
    }

    /** Distance from `self` to the current waypoint (the `float` overload of
        `IsNearToWaypoint`). */
    function WaypointDistance(self: Position): (d: real)
      reads this
      requires 0 <= currentPoint < |waypointList|
      ensures 0.0 <= d
      ensures d == 0.0 <==> self == waypointList[currentPoint]
    {
      Distance(self, waypointList[currentPoint])
    }

    /** The `bool` overload of `IsNearToWaypoint`: despite its name it is true
        when `self` is FARTHER than `distance` from the current waypoint, and
        false when near. */
    function IsNearToWaypoint(self: Position, distance: real): (far: bool)
      reads this
      requires 0 <= currentPoint < |waypointList|
      ensures far <==> WaypointDistance(self) > distance
      ensures self == waypointList[currentPoint] && 0.0 <= distance ==> !far
    {
      Distance(self, waypointList[currentPoint]) > distance
    }

    /** `NewWaypoint(index)`, with `index < 0` standing for the default -1. */
    method NewWaypoint(index: int)
      requires Valid()
      modifies this`currentPoint
      ensures Valid()
      ensures currentPoint == NextIndex(old(currentPoint), |waypointList|, index)
      ensures 0 <= index <= |waypointList| ==> currentPoint == index
      ensures |waypointList| < index ==> currentPoint == old(currentPoint)
      ensures index < 0 && 0 < |waypointList| ==> 0 <= currentPoint < |waypointList|
      ensures index < 0 && old(currentPoint) < |waypointList| ==>
                currentPoint == (old(currentPoint) + 1) % |waypointList|
      ensures waypointList == old(waypointList)
    {
      if index >= 0 {
        if index > |waypointList| {
          return;
        }
        currentPoint := index;
      } else {
        currentPoint := currentPoint + 1;
        if currentPoint > |waypointList| - 1 {
          currentPoint := 0;
        }
      }
      if index < 0 && old(currentPoint) < |waypointList| {
        IncrementIsModular(old(currentPoint), |waypointList|);
      }
    }

    /** `AddPoint(pos)`: appends the new marker's position, that of `pos` when
        given and the component's own origin otherwise. */
    method AddPoint(pos: Option<Position>)
      requires Valid()
      modifies this`waypointList
      ensures Valid()
      ensures waypointList == old(waypointList) + [if pos.Some? then pos.value else 0.0]
      ensures currentPoint == old(currentPoint)
    {
      var p := if pos.Some? then pos.value else 0.0;
      waypointList := waypointList + [p];
    }

    /** `ClearAllWaypoints`: empties the list and leaves the index alone, so
        the index addresses no waypoint afterwards. */
    method ClearAllWaypoints()
      requires Valid()
      modifies this`waypointList
      ensures Valid()
      ensures waypointList == [] && currentPoint == old(currentPoint)
      ensures !(0 <= currentPoint < |waypointList|)
    {
      waypointList := [];
    }
  }
}
