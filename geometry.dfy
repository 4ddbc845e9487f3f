/** Positions, distances and the engine's "move towards" primitive.

    The source works on 3-D float vectors; this model places every position on
    one axis and uses exact reals, so that arrival ("the moved position equals
    the target") and distances can be stated precisely.
 */
module Geometry {

  /** A point on the line along which the agent travels. */
  type Position = real

  function Abs(x: real): (r: real)
    ensures 0.0 <= r
    ensures r == x || r == -x
  {
    if x < 0.0 then -x else x
  }

  /** Euclidean distance between two positions (the engine's Vector3.Distance). */
  function Distance(a: Position, b: Position): (d: real)
    ensures 0.0 <= d
    ensures d == 0.0 <==> a == b
    ensures d == a - b || d == b - a
  {
    Abs(a - b)
  }

  /** The engine's Vector3.MoveTowards on one axis: move `current` towards
      `target` by at most `maxDelta`. The target itself is returned when it is
      already reached or lies within `maxDelta`; otherwise the result is
      exactly `maxDelta` closer to the target (a negative `maxDelta` pushes
      away from it). */
  function MoveTowards(current: Position, target: Position, maxDelta: real): (r: Position)
    // within reach: lands exactly on the target
    ensures current == target || Distance(current, target) <= maxDelta ==> r == target
    // out of reach: the remaining distance shrinks by exactly maxDelta
    ensures current != target && maxDelta < Distance(current, target) ==>
              Distance(r, target) == Distance(current, target) - maxDelta &&
              Distance(current, r) == Abs(maxDelta)
    // a non-negative step never overshoots: r lies between current and target
    ensures 0.0 <= maxDelta ==>
              Distance(current, r) + Distance(r, target) == Distance(current, target)
  {
    var d := Distance(current, target);
    if d == 0.0 || d <= maxDelta then target
    else if current < target then current + maxDelta
    else current - maxDelta
  }

  /** A positive step that does not reach the target brings the agent
      strictly closer without passing it. */
  lemma MoveTowardsStrictlyCloser(current: Position, target: Position, maxDelta: real)
    requires 0.0 < maxDelta
    requires MoveTowards(current, target, maxDelta) != target
    ensures Distance(MoveTowards(current, target, maxDelta), target) < Distance(current, target)
  {
  }
}
