/** The per-frame waypoint traversal of the `PathSystem` component.

    The component keeps a waypoint counter, a dwell deadline and the agent's
    position. Each frame it moves the agent towards the current waypoint; on
    exact arrival it advances the counter and starts a dwell. The counter value
    `|waypoints|` is a sentinel meaning "heading back to waypoint 0".

    `Next` is the step as a function of the state; the class `PathSystem`
    updates its fields in place and is proved against `Next`.
 */
module Path {
  import opened Geometry
  import opened Wrappers

  /** The traversal state: waypoint counter, dwell deadline, agent position. */
  datatype PathState = PathState(points: int, timer: real, pos: Position)

  /** The counter stays within [0, |waypoints|]; |waypoints| is the wrap sentinel. */
  predicate CounterInRange(points: int, count: nat)
  {
    0 <= points <= count
  }

  /** The index of the waypoint the agent is heading for in state `s`. */
  function TargetIndex(s: PathState, count: nat): (i: int)
    requires CounterInRange(s.points, count) && 0 < count
    ensures 0 <= i < count
    ensures s.points < count ==> i == s.points
    ensures s.points == count ==> i == 0
  {
    if s.points == count then 0 else s.points
  }

  /** One frame of traversal at clock reading `now`, `dt` seconds after the
      previous frame. `None` is the list-index fault the engine raises when the
      counter does not address a waypoint; nothing has changed by then. */
  function Next(s: PathState, waypoints: seq<Position>, now: real, dt: real,
                speed: real, waitingTimer: real): (r: Option<PathState>)
    // the step faults exactly when it must read outside the list
    ensures r.None? <==>
              now >= s.timer && (s.points < 0 || s.points > |waypoints| || |waypoints| == 0)
    // the counter invariant is preserved
    ensures r.Some? && CounterInRange(s.points, |waypoints|) ==>
              CounterInRange(r.value.points, |waypoints|)
  {
    var waypointMoveSpeed := speed * dt;
    if s.points != |waypoints| && now >= s.timer then
      if 0 <= s.points < |waypoints| then
        var moved := MoveTowards(s.pos, waypoints[s.points], waypointMoveSpeed);
        if moved == waypoints[s.points] then
          Some(PathState(s.points + 1, now + waitingTimer, moved))
        else
          Some(s.(pos := moved))
      else
        None
    else if s.points == |waypoints| && now >= s.timer then
      if 0 < |waypoints| then
        var moved := MoveTowards(s.pos, waypoints[0], waypointMoveSpeed);
        if moved == waypoints[0] then
          // The single deliberate departure from the source: after resetting
          // the counter, the source assigns `now + waitingTimer` to the counter
          // field itself, which does not type-check; the counter is left at 0
          // and the dwell deadline is not touched.
          Some(s.(points := 0, pos := moved))
        else
          Some(s.(pos := moved))
      else
        None
    else
      Some(s)
  }

  /** While the dwell deadline lies in the future nothing changes. */
  lemma DwellKeepsState(s: PathState, waypoints: seq<Position>, now: real, dt: real,
                        speed: real, waitingTimer: real)
    requires now < s.timer
    ensures Next(s, waypoints, now, dt, speed, waitingTimer) == Some(s)
  {
  }

  /** A counter in range over a non-empty list never faults. An empty list
      faults as soon as the dwell deadline has passed, since the wrap leg reads
      waypoint 0. */
  lemma FaultOnlyOnEmptyList(s: PathState, waypoints: seq<Position>, now: real, dt: real,
                             speed: real, waitingTimer: real)
    requires CounterInRange(s.points, |waypoints|)
    ensures Next(s, waypoints, now, dt, speed, waitingTimer).None? <==>
              |waypoints| == 0 && now >= s.timer
  {
  }

  /** Arrival at a regular waypoint: the counter goes up by exactly one and a
      dwell of `waitingTimer` starts at `now`. */
  lemma ArrivalAdvances(s: PathState, waypoints: seq<Position>, now: real, dt: real,
                        speed: real, waitingTimer: real)
    requires 0 <= s.points < |waypoints| && now >= s.timer
    requires MoveTowards(s.pos, waypoints[s.points], speed * dt) == waypoints[s.points]
    ensures Next(s, waypoints, now, dt, speed, waitingTimer) ==
              Some(PathState(s.points + 1, now + waitingTimer, waypoints[s.points]))
  {
  }

  /** Arrival on the wrap leg: the agent is at waypoint 0 and the counter is 0. */
  lemma WrapArrivalResets(s: PathState, waypoints: seq<Position>, now: real, dt: real,
                          speed: real, waitingTimer: real)
    requires s.points == |waypoints| && 0 < |waypoints| && now >= s.timer
    requires MoveTowards(s.pos, waypoints[0], speed * dt) == waypoints[0]
    ensures Next(s, waypoints, now, dt, speed, waitingTimer) ==
              Some(PathState(0, s.timer, waypoints[0]))
  {
  }

  /** Without arrival only the position changes, and with a positive step the
      agent gets strictly closer to its target without passing it. */
  lemma NoArrivalOnlyMoves(s: PathState, waypoints: seq<Position>, now: real, dt: real,
                           speed: real, waitingTimer: real)
    requires CounterInRange(s.points, |waypoints|) && 0 < |waypoints| && now >= s.timer
    requires MoveTowards(s.pos, waypoints[TargetIndex(s, |waypoints|)], speed * dt) !=
             waypoints[TargetIndex(s, |waypoints|)]
    ensures var target := waypoints[TargetIndex(s, |waypoints|)];
            var moved := MoveTowards(s.pos, target, speed * dt);
            Next(s, waypoints, now, dt, speed, waitingTimer) == Some(s.(pos := moved)) &&
            (0.0 < speed * dt ==> Distance(moved, target) < Distance(s.pos, target))
  {
    var target := waypoints[TargetIndex(s, |waypoints|)];
    if 0.0 < speed * dt {
      MoveTowardsStrictlyCloser(s.pos, target, speed * dt);
    }
  }

  /** A frame whose step covers the remaining distance arrives in that frame. */
  lemma ReachableArrivesThisFrame(s: PathState, waypoints: seq<Position>, now: real, dt: real,
                                  speed: real, waitingTimer: real)
    requires CounterInRange(s.points, |waypoints|) && 0 < |waypoints| && now >= s.timer
    requires Distance(s.pos, waypoints[TargetIndex(s, |waypoints|)]) <= speed * dt
    ensures var r := Next(s, waypoints, now, dt, speed, waitingTimer);
            r.Some? && r.value.pos == waypoints[TargetIndex(s, |waypoints|)] &&
            (s.points < |waypoints| ==> r.value.points == s.points + 1 &&
                                        r.value.timer == now + waitingTimer) &&
            (s.points == |waypoints| ==> r.value.points == 0)
  {
  }

  /** After arriving at a regular waypoint the agent holds its position on
      every later frame before `now + waitingTimer`. */
  lemma DwellHonoredAfterArrival(s: PathState, waypoints: seq<Position>, now: real, dt: real,
                                 later: real, dt2: real, speed: real, waitingTimer: real)
    requires 0 <= s.points < |waypoints| && now >= s.timer
    requires MoveTowards(s.pos, waypoints[s.points], speed * dt) == waypoints[s.points]
    requires later < now + waitingTimer
    ensures var arrived := Next(s, waypoints, now, dt, speed, waitingTimer).value;
            Next(arrived, waypoints, later, dt2, speed, waitingTimer) == Some(arrived)
  {
    ArrivalAdvances(s, waypoints, now, dt, speed, waitingTimer);
    var arrived := PathState(s.points + 1, now + waitingTimer, waypoints[s.points]);
    DwellKeepsState(arrived, waypoints, later, dt2, speed, waitingTimer);
  }

  /** Arrival at a regular waypoint makes the next waypoint in cyclic order
      the new target: after the last one, the target is waypoint 0. */
  lemma ArrivalTargetsNextInCycle(s: PathState, waypoints: seq<Position>, now: real, dt: real,
                                  speed: real, waitingTimer: real)
    requires 0 <= s.points < |waypoints| && now >= s.timer
    requires MoveTowards(s.pos, waypoints[s.points], speed * dt) == waypoints[s.points]
    ensures var r := Next(s, waypoints, now, dt, speed, waitingTimer);
            r.Some? && CounterInRange(r.value.points, |waypoints|) &&
            TargetIndex(r.value, |waypoints|) == (s.points + 1) % |waypoints|
  {
    ArrivalAdvances(s, waypoints, now, dt, speed, waitingTimer);
    if s.points + 1 < |waypoints| {
      assert (s.points + 1) % |waypoints| == s.points + 1;
    } else {
      assert (s.points + 1) % |waypoints| == 0;
    }
  }

  /** With the counter at 0 and the agent already on waypoint 0, a frame past
      the deadline counts an arrival there at once, whatever the frame time:
      the counter becomes 1 and a dwell starts. This is what follows every
      wrap arrival, independently of how the deadline was left. */
  lemma StandingOnWaypointZeroArrives(s: PathState, waypoints: seq<Position>, now: real,
                                      dt: real, speed: real, waitingTimer: real)
    requires 0 < |waypoints| && s.points == 0 && s.pos == waypoints[0] && now >= s.timer
    ensures Next(s, waypoints, now, dt, speed, waitingTimer) ==
              Some(PathState(1, now + waitingTimer, waypoints[0]))
  {
  }

  /** The wrap leg resets the counter to 0, not 1, so the agent standing on
      waypoint 0 is counted as arriving there again on the next frame past
      the deadline. Only the timing comes from the departure at line 63
      (deadline left unchanged): the repeat arrival happens on the very next
      frame, whatever the frame time, with no dwell before it; only that
      second arrival starts a dwell. */
  lemma WrapArrivalRepeatsWaypointZero(s: PathState, waypoints: seq<Position>, now: real,
                                       dt: real, later: real, dt2: real,
                                       speed: real, waitingTimer: real)
    requires s.points == |waypoints| && 0 < |waypoints| && now >= s.timer
    requires MoveTowards(s.pos, waypoints[0], speed * dt) == waypoints[0]
    requires later >= now
    ensures var wrapped := Next(s, waypoints, now, dt, speed, waitingTimer).value;
            Next(wrapped, waypoints, later, dt2, speed, waitingTimer) ==
              Some(PathState(1, later + waitingTimer, waypoints[0]))
  {
    WrapArrivalResets(s, waypoints, now, dt, speed, waitingTimer);
    var wrapped := PathState(0, s.timer, waypoints[0]);
    ArrivalAdvances(wrapped, waypoints, later, dt2, speed, waitingTimer);
  }

  /** The `PathSystem` component: tuning constants, the counter `points`, the
      dwell deadline `timer` and the agent position `pos`. */
  class PathSystem {
    const speed: real
    const waitingTimer: real
    var points: int
    var timer: real
    var pos: Position

    /** The abstract traversal state held in the fields. */
    function State(): PathState
      reads this
    {
      PathState(points, timer, pos)
    }

    /** A fresh component: counter 0, dwell deadline 0, agent at `start`. */
    constructor (speed: real, waitingTimer: real, start: Position)
      ensures this.speed == speed && this.waitingTimer == waitingTimer
      ensures points == 0 && timer == 0.0 && pos == start
    {
      this.speed := speed;
      this.waitingTimer := waitingTimer;
      points := 0;
      timer := 0.0;
      pos := start;
    }

    /** Resets the counter to 0 whatever its value; nothing else changes, so a
        second call has no further effect. */
    method Awake()
      modifies this
      ensures points == 0 && timer == old(timer) && pos == old(pos)
    {
      if points != 0 {
        points := 0;
      }
    }

    /** One frame (`MoveToNextWaypoint`), the engine's clock reading `now` and
        frame time `dt` passed in. `ok` is false when the source would raise
        its list-index fault, and then nothing has changed. */
    method Step(waypoints: seq<Position>, now: real, dt: real) returns (ok: bool)
      modifies this
      ensures var r := Next(old(State()), waypoints, now, dt, speed, waitingTimer);
              ok == r.Some? && State() == (if ok then r.value else old(State()))
      ensures now < old(timer) ==> ok && State() == old(State())
      ensures old(CounterInRange(points, |waypoints|)) && 0 < |waypoints| ==>
                ok && CounterInRange(points, |waypoints|)
    {
      var waypointMoveSpeed := speed * dt;
      if points != |waypoints| && now >= timer {
        if !(0 <= points < |waypoints|) {
          return false;
        }
        pos := MoveTowards(pos, waypoints[points], waypointMoveSpeed);
        if pos == waypoints[points] {
          points := points + 1;
          timer := now + waitingTimer;
        }
      } else if points == |waypoints| && now >= timer {
        if |waypoints| == 0 {
          return false;
        }
        pos := MoveTowards(pos, waypoints[0], waypointMoveSpeed);
        if pos == waypoints[0] {
          points := 0;
          // Deliberate departure: the source's following assignment of
          // `now + waitingTimer` to the counter is ill-typed and is not modelled.
        }
      }
      ok := true;
    }
  }
}
