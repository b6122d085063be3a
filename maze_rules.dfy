/**
 * The maze rules the two builds share, written as functions of the grid: what `generate`
 * builds, what `update(dt)` does to warning tiles, and what one adaptation does.
 */
module MazeRules {
  import opened Grid

  /** The cell `generate` pushes at (x, y), before the start and exit are cleared. */
  function Layout(n: int, isWall: (int, int) -> bool, x: int, y: int): Cell {
    if x == 0 || y == 0 || x == n - 1 || y == n - 1 then Cell(Wall, 0)
    else Cell(if isWall(x, y) then Wall else Floor, 0)
  }

  /**
   * The grid `generate` builds for `size` n. `isWall(x, y)` is the outcome of the random
   * draw `Math.random() < 0.25` made for the interior cell (x, y).
   */
  function Generated(n: nat, isWall: (int, int) -> bool): (g: Board)
    requires n >= 2
    ensures |g| == n
    ensures At(g, Pos(1, 1)).kind == Floor && At(g, Pos(n - 2, n - 2)).kind == Floor
    ensures forall p | OnBorder(g, p) && p != Pos(1, 1) && p != Pos(n - 2, n - 2) :: At(g, p).kind == Wall
    ensures n >= 3 ==> BorderIsWall(g)
    ensures forall p | Interior(g, p) && p != Pos(1, 1) && p != Pos(n - 2, n - 2) ::
              At(g, p).kind == (if isWall(p.x, p.y) then Wall else Floor)
    ensures forall p | InBounds(g, p) :: At(g, p).warningTimer == 0
  {
    var raw: Board := seq(n, y => seq(n, x => Layout(n, isWall, x, y)));
    WithKind(WithKind(raw, Pos(1, 1), Floor), Pos(n - 2, n - 2), Floor)
  }

  /**
   * Nothing in `generate` secures a route: with every draw a wall, the 15-by-15 start
   * cell is boxed in and the exit cannot be reached.
   */
  lemma GeneratedMayBeUnsolvable()
    ensures !Connected(Generated(15, (x, y) => true), Pos(1, 1), Pos(13, 13))
  {
    var g := Generated(15, (x, y) => true);
    var start := Pos(1, 1);
    assert At(g, Pos(2, 1)).kind == Wall && At(g, Pos(1, 2)).kind == Wall;
    assert At(g, Pos(0, 1)).kind == Wall && At(g, Pos(1, 0)).kind == Wall;
    forall c, d | c in {start} && Adjacent(c, d)
      ensures !Passable(g, d)
    {
      var k := Direction(c, d);
      assert d == Neighbor(start, k);
    }
    RegionSeparates(g, {start}, start, Pos(13, 13));
  }

  /** One cell's step of `update(dt)`: a warning timer drops by dt and the tile hardens at zero or below. */
  function Tick(c: Cell, dt: int): (r: Cell)
    ensures c.kind != Warning ==> r == c
    ensures c.kind == Warning ==>
              && r.warningTimer == c.warningTimer - dt
              && (r.kind == Wall <==> r.warningTimer <= 0)
              && (r.kind == Warning <==> r.warningTimer > 0)
  {
    if c.kind != Warning then c
    else
      var t := c.warningTimer - dt;
      Cell(if t <= 0 then Wall else Warning, t)
  }

  /**
   * The grid after `update(dt)`: every warning tile counts down by dt and becomes a wall
   * once its timer is at or below zero; every other tile is left as it was.
   */
  function Countdown(g: Board, dt: int): (r: Board)
    ensures |r| == |g|
    ensures forall p | InBounds(g, p) && At(g, p).kind != Warning :: At(r, p) == At(g, p)
    ensures forall p | InBounds(g, p) && At(g, p).kind == Warning ::
              && At(r, p).warningTimer == At(g, p).warningTimer - dt
              && (At(r, p).kind == Wall <==> At(r, p).warningTimer <= 0)
              && (At(r, p).kind == Warning <==> At(r, p).warningTimer > 0)
    ensures forall p | Passable(r, p) :: Passable(g, p)
    ensures BorderIsWall(g) ==> BorderIsWall(r)
  {
    seq(|g|, y requires 0 <= y < |g| => seq(|g|, x requires 0 <= x < |g| => Tick(g[y][x], dt)))
  }

  /** A 4-by-4 grid whose only route from (1,1) to (2,2) runs over a warning tile with 1 ms left. */
  function OneWarningRoute(): (g: Board)
    ensures |g| == 4
  {
    var w, f := Cell(Wall, 0), Cell(Floor, 0);
    [ [w, w, w, w],
      [w, f, Cell(Warning, 1), w],
      [w, w, f, w],
      [w, w, w, w] ]
  }

  /**
   * `update(dt)` hardens warning tiles without looking at routes, so one call can cut the
   * only route between two cells.
   */
  lemma CountdownMayDisconnect()
    ensures Connected(OneWarningRoute(), Pos(1, 1), Pos(2, 2))
    ensures !Connected(Countdown(OneWarningRoute(), 1), Pos(1, 1), Pos(2, 2))
  {
    var g := OneWarningRoute();
    assert IsPath(g, [Pos(1, 1), Pos(2, 1), Pos(2, 2)], Pos(1, 1), Pos(2, 2));
    var h := Countdown(g, 1);
    var start := Pos(1, 1);
    assert At(h, Pos(2, 1)).kind == Wall && At(h, Pos(1, 2)).kind == Wall;
    assert At(h, Pos(0, 1)).kind == Wall && At(h, Pos(1, 0)).kind == Wall;
    forall c, d | c in {start} && Adjacent(c, d)
      ensures !Passable(h, d)
    {
      var k := Direction(c, d);
      assert d == Neighbor(start, k);
    }
    RegionSeparates(h, {start}, start, Pos(2, 2));
  }

  /** The number of cells one adaptation draws before giving up. */
  const AdaptAttempts := 5

  /** The squared straight-line distance between two cells. */
  function Dist2(a: Pos, b: Pos): int {
    (a.x - b.x) * (a.x - b.x) + (a.y - b.y) * (a.y - b.y)
  }

  /**
   * The adapter's test on a drawn cell: a floor tile whose straight-line distance from
   * the player is above 2 and below 6 (compared squared, which is exact on integers).
   */
  predicate Eligible(g: Board, c: Pos, player: Pos)
    ensures Eligible(g, c, player) ==> InBounds(g, c) && At(g, c).kind == Floor && c != player && !Adjacent(c, player)
  {
    InBounds(g, c) && At(g, c).kind == Floor && 4 < Dist2(c, player) < 36
  }

  /** A drawn cell is taken when it is eligible and the player still reaches the exit with it walled. */
  ghost predicate Accepts(g: Board, c: Pos, player: Pos, exit: Pos) {
    Eligible(g, c, player) && Connected(WithKind(g, c, Wall), player, exit)
  }

  /**
   * The outcome of one adaptation over the drawn cells `draws`: the first accepted cell
   * becomes a warning tile with `timer` milliseconds left; with none, nothing changes.
   */
  ghost function Adapted(g: Board, draws: seq<Pos>, player: Pos, exit: Pos, timer: int): (r: (bool, Board))
    requires forall c | c in draws :: InBounds(g, c)
    ensures |r.1| == |g|
    ensures !r.0 ==> r.1 == g
  {
    if draws == [] then (false, g)
    else if Accepts(g, draws[0], player, exit) then (true, Put(g, draws[0], Cell(Warning, timer)))
    else Adapted(g, draws[1..], player, exit, timer)
  }

  /**
   * The draws are tried in order: a successful adaptation warns the first accepted draw,
   * and every draw before it was rejected.
   */
  lemma {:induction false} AdaptedFirst(g: Board, draws: seq<Pos>, player: Pos, exit: Pos, timer: int)
    requires forall c | c in draws :: InBounds(g, c)
    ensures Adapted(g, draws, player, exit, timer).0 ==>
              exists i | 0 <= i < |draws| ::
                && Accepts(g, draws[i], player, exit)
                && (forall j | 0 <= j < i :: !Accepts(g, draws[j], player, exit))
                && Adapted(g, draws, player, exit, timer).1 == Put(g, draws[i], Cell(Warning, timer))
  {
    if draws != [] && !Accepts(g, draws[0], player, exit) {
      AdaptedFirst(g, draws[1..], player, exit, timer);
      if Adapted(g, draws, player, exit, timer).0 {
        var i :| 0 <= i < |draws| - 1 && Accepts(g, draws[1..][i], player, exit)
                 && (forall j | 0 <= j < i :: !Accepts(g, draws[1..][j], player, exit))
                 && Adapted(g, draws[1..], player, exit, timer).1 == Put(g, draws[1..][i], Cell(Warning, timer));
        assert forall j | 0 <= j < i + 1 :: !Accepts(g, draws[j], player, exit) by {
          forall j | 0 <= j < i + 1 ensures !Accepts(g, draws[j], player, exit) {
            if j > 0 { assert draws[j] == draws[1..][j - 1]; }
          }
        }
      }
    }
  }

  /**
   * An adaptation succeeds exactly when some drawn cell is accepted; a failed one leaves
   * the grid as it was, and a successful one turns one accepted cell into a warning tile
   * and changes nothing else.
   */
  lemma {:induction false} AdaptedOutcome(g: Board, draws: seq<Pos>, player: Pos, exit: Pos, timer: int)
    requires forall c | c in draws :: InBounds(g, c)
    ensures Adapted(g, draws, player, exit, timer).0 <==> exists c | c in draws :: Accepts(g, c, player, exit)
    ensures !Adapted(g, draws, player, exit, timer).0 ==> Adapted(g, draws, player, exit, timer).1 == g
    ensures Adapted(g, draws, player, exit, timer).0 ==>
              exists c | c in draws :: Accepts(g, c, player, exit) &&
                                       Adapted(g, draws, player, exit, timer).1 == Put(g, c, Cell(Warning, timer))
  {
    if draws != [] && !Accepts(g, draws[0], player, exit) {
      AdaptedOutcome(g, draws[1..], player, exit, timer);
      assert forall c | c in draws :: c == draws[0] || c in draws[1..];
    }
  }

  /**
   * A drawn cell that would cut the player off from the exit is never the one changed:
   * every cell the adaptation rejects keeps its contents.
   */
  lemma RejectedCellUntouched(g: Board, draws: seq<Pos>, player: Pos, exit: Pos, timer: int, c: Pos)
    requires forall d | d in draws :: InBounds(g, d)
    requires InBounds(g, c) && !Accepts(g, c, player, exit)
    ensures At(Adapted(g, draws, player, exit, timer).1, c) == At(g, c)
  {
    AdaptedOutcome(g, draws, player, exit, timer);
  }

  /**
   * Right after a successful adaptation the player still reaches the exit: the route found
   * with the cell walled also works with it as a (passable) warning tile.
   */
  lemma AdaptedKeepsRoute(g: Board, draws: seq<Pos>, player: Pos, exit: Pos, timer: int)
    requires forall c | c in draws :: InBounds(g, c)
    requires Adapted(g, draws, player, exit, timer).0
    ensures Connected(Adapted(g, draws, player, exit, timer).1, player, exit)
  {
    AdaptedOutcome(g, draws, player, exit, timer);
    var c :| c in draws && Accepts(g, c, player, exit) &&
             Adapted(g, draws, player, exit, timer).1 == Put(g, c, Cell(Warning, timer));
    ConnectedInLooserGrid(WithKind(g, c, Wall), Put(g, c, Cell(Warning, timer)), player, exit);
  }

  /** Adaptation draws only interior cells, so it never touches the border. */
  lemma AdaptedKeepsBorder(g: Board, draws: seq<Pos>, player: Pos, exit: Pos, timer: int)
    requires forall c | c in draws :: InBounds(g, c) && Interior(g, c)
    requires BorderIsWall(g)
    ensures BorderIsWall(Adapted(g, draws, player, exit, timer).1)
  {
    AdaptedOutcome(g, draws, player, exit, timer);
  }
}
