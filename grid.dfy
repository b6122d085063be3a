/** The square tile grid both game builds share: cells, positions, walks and connectivity. */
module Grid {

  /** A tile's type. A warning tile is a floor tile that is about to become a wall. */
  datatype Kind = Wall | Floor | Warning

  /** One tile; `warningTimer` is the number of milliseconds left before a warning tile hardens. */
  datatype Cell = Cell(kind: Kind, warningTimer: int)

  /** A grid coordinate; the grid is indexed `grid[y][x]`. */
  datatype Pos = Pos(x: int, y: int)

  predicate IsSquare(g: seq<seq<Cell>>) {
    forall y | 0 <= y < |g| :: |g[y]| == |g|
  }

  /** The maze grid: `size` rows of `size` cells each. */
  type Board = g: seq<seq<Cell>> | IsSquare(g)

  predicate InBounds(g: Board, p: Pos) {
    0 <= p.x < |g| && 0 <= p.y < |g|
  }

  function At(g: Board, p: Pos): Cell
    requires InBounds(g, p)
  {
    g[p.y][p.x]
  }

  /** Entities may stand on floor and warning tiles; only walls block. */
  predicate Passable(g: Board, p: Pos) {
    InBounds(g, p) && At(g, p).kind != Wall
  }

  predicate OnBorder(g: Board, p: Pos) {
    InBounds(g, p) && (p.x == 0 || p.y == 0 || p.x == |g| - 1 || p.y == |g| - 1)
  }

  predicate Interior(g: Board, p: Pos) {
    1 <= p.x <= |g| - 2 && 1 <= p.y <= |g| - 2
  }

  ghost predicate BorderIsWall(g: Board) {
    forall p | OnBorder(g, p) :: At(g, p).kind == Wall
  }

  /** The grid with the cell at `p` replaced by `c`; no other cell changes. */
  function Put(g: Board, p: Pos, c: Cell): (r: Board)
    requires InBounds(g, p)
    ensures |r| == |g| && At(r, p) == c
    ensures forall q | InBounds(g, q) && q != p :: At(r, q) == At(g, q)
  {
    g[p.y := g[p.y][p.x := c]]
  }

  /** The grid with only the type of the cell at `p` changed, as `grid[y][x].type = kind` does. */
  function WithKind(g: Board, p: Pos, kind: Kind): (r: Board)
    requires InBounds(g, p)
    ensures |r| == |g| && At(r, p) == Cell(kind, At(g, p).warningTimer)
    ensures forall q | InBounds(g, q) && q != p :: At(r, q) == At(g, q)
  {
    Put(g, p, Cell(kind, At(g, p).warningTimer))
  }

  /** The grid with only the timer of the cell at `p` changed, as `grid[y][x].warningTimer = t` does. */
  function WithTimer(g: Board, p: Pos, t: int): (r: Board)
    requires InBounds(g, p)
    ensures |r| == |g| && At(r, p) == Cell(At(g, p).kind, t)
    ensures forall q | InBounds(g, q) && q != p :: At(r, q) == At(g, q)
  {
    Put(g, p, Cell(At(g, p).kind, t))
  }

  /** Two grids of one size that agree on every cell are the same grid. */
  lemma SameCells(a: Board, b: Board)
    requires |a| == |b|
    requires forall p | InBounds(a, p) :: At(a, p) == At(b, p)
    ensures a == b
  {
    forall y | 0 <= y < |a|
      ensures a[y] == b[y]
    {
      forall x | 0 <= x < |a|
        ensures a[y][x] == b[y][x]
      {
        assert At(a, Pos(x, y)) == At(b, Pos(x, y));
      }
    }
  }

  /** The four moves, in the order the pathfinder tries them: up, right, down, left. */
  const Offsets: seq<Pos> := [Pos(0, -1), Pos(1, 0), Pos(0, 1), Pos(-1, 0)]

  predicate Adjacent(a: Pos, b: Pos) {
    || (a.x == b.x && (b.y == a.y - 1 || b.y == a.y + 1))
    || (a.y == b.y && (b.x == a.x - 1 || b.x == a.x + 1))
  }

  function Neighbor(p: Pos, k: nat): (r: Pos)
    requires k < |Offsets|
    ensures Adjacent(p, r)
  {
    Pos(p.x + Offsets[k].x, p.y + Offsets[k].y)
  }

  /** Every adjacent cell is one of the four offsets away. */
  function Direction(a: Pos, b: Pos): (k: nat)
    requires Adjacent(a, b)
    ensures k < |Offsets| && Neighbor(a, k) == b
  {
    if b.y == a.y - 1 then 0
    else if b.x == a.x + 1 then 1
    else if b.y == a.y + 1 then 2
    else 3
  }

  /**
   * `path` walks from `from` to `to` in unit axis-aligned steps, and every cell it
   * steps onto is inside the grid and not a wall (the first cell is not checked).
   */
  predicate IsPath(g: Board, path: seq<Pos>, from: Pos, to: Pos) {
    && |path| > 0 && path[0] == from && path[|path| - 1] == to
    && forall i | 1 <= i < |path| :: Adjacent(path[i - 1], path[i]) && Passable(g, path[i])
  }

  ghost predicate Connected(g: Board, from: Pos, to: Pos) {
    exists path :: IsPath(g, path, from, to)
  }

  /** A region that no step leaves: every passable cell next to a cell of it is in it. */
  ghost predicate Enclosed(g: Board, region: set<Pos>) {
    forall c, d | c in region && Adjacent(c, d) && Passable(g, d) :: d in region
  }

  /** A walk that starts inside an enclosed region ends inside it. */
  lemma {:induction false} WalkStaysInside(g: Board, region: set<Pos>, path: seq<Pos>, from: Pos, to: Pos)
    requires from in region && Enclosed(g, region)
    requires IsPath(g, path, from, to)
    ensures to in region
  {
    if |path| > 1 {
      var prefix := path[..|path| - 1];
      assert IsPath(g, prefix, from, prefix[|prefix| - 1]);
      WalkStaysInside(g, region, prefix, from, prefix[|prefix| - 1]);
    }
  }

  /** No walk leads out of an enclosed region. */
  lemma RegionSeparates(g: Board, region: set<Pos>, from: Pos, to: Pos)
    requires from in region && Enclosed(g, region) && to !in region
    ensures !Connected(g, from, to)
  {
    forall path
      ensures !IsPath(g, path, from, to)
    {
      if IsPath(g, path, from, to) {
        WalkStaysInside(g, region, path, from, to);
      }
    }
  }

  /** Opening more cells never disconnects anything. */
  lemma ConnectedInLooserGrid(g: Board, h: Board, from: Pos, to: Pos)
    requires forall p | Passable(g, p) :: Passable(h, p)
    requires Connected(g, from, to)
    ensures Connected(h, from, to)
  {
    var path :| IsPath(g, path, from, to);
    assert IsPath(h, path, from, to);
  }
}
