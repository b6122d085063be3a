/**
 * How an enemy chases the player in both builds: its move timer collects the frame time,
 * and once it passes the move interval the timer restarts, a fresh path to the player is
 * searched and the enemy steps onto the path's second cell.
 */
module Pursuit {
  import opened Grid

  /** The part of an enemy the chase logic reads and writes: grid cell, last path, move timer. */
  datatype Chaser = Chaser(pos: Pos, path: seq<Pos>, timer: int)

  /** A freshly spawned enemy: no path yet, timer at zero. */
  function Spawned(p: Pos): Chaser {
    Chaser(p, [], 0)
  }

  /**
   * One frame of `dt` milliseconds for an enemy chasing `target` with move interval
   * `interval`. When the timer passes the interval it restarts at zero, the stored path is
   * what the search returned (a walk to the target, empty exactly when none exists), and
   * the enemy moves to the path's second cell if there is one. Otherwise only the timer
   * grows.
   */
  ghost predicate Pursued(g: Board, before: Chaser, after: Chaser, dt: int, target: Pos, interval: int)
    ensures Pursued(g, before, after, dt, target, interval) ==>
              after.timer == (if before.timer + dt > interval then 0 else before.timer + dt)
    ensures Pursued(g, before, after, dt, target, interval) && after.pos != before.pos ==>
              before.timer + dt > interval && |after.path| > 1 && after.pos == after.path[1]
  {
    if before.timer + dt > interval then
      && after.timer == 0
      && (after.path == [] || IsPath(g, after.path, before.pos, target))
      && (after.path == [] <==> !Connected(g, before.pos, target))
      && (before.pos == target ==> after.path == [target])
      && after.pos == (if |after.path| > 1 then after.path[1] else before.pos)
    else
      after == before.(timer := before.timer + dt)
  }

  /**
   * What one frame does to an enemy's position: it moves only when its timer is due, the
   * player is reachable and it is not already on the player's cell, and then it takes one
   * step onto a neighbouring non-wall cell.
   */
  lemma ChaseStep(g: Board, before: Chaser, after: Chaser, dt: int, target: Pos, interval: int)
    requires Pursued(g, before, after, dt, target, interval)
    ensures after.pos != before.pos <==>
              before.timer + dt > interval && Connected(g, before.pos, target) && before.pos != target
    ensures after.pos != before.pos ==> Adjacent(before.pos, after.pos) && Passable(g, after.pos)
  {
    if before.timer + dt > interval && |after.path| > 1 {
      assert Adjacent(after.path[0], after.path[1]);
    }
    if before.timer + dt > interval && after.path != [] && |after.path| <= 1 {
      assert after.path[0] == before.pos && after.path[|after.path| - 1] == target;
    }
  }

  /** An enemy inside the walled border stays inside it: the only cells it steps onto are non-wall cells. */
  lemma ChaseStaysInside(g: Board, before: Chaser, after: Chaser, dt: int, target: Pos, interval: int)
    requires Pursued(g, before, after, dt, target, interval)
    requires BorderIsWall(g) && InBounds(g, before.pos) && Interior(g, before.pos)
    ensures InBounds(g, after.pos) && Interior(g, after.pos)
  {
    ChaseStep(g, before, after, dt, target, interval);
    if after.pos != before.pos {
      assert !OnBorder(g, after.pos);
    }
  }
}
