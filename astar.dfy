/**
 * The A* search both builds run in `findPath`: an open list, a closed set, a parent map
 * and g/f score maps, four-way moves, and only wall tiles blocked.
 */
module AStar {
  import opened Grid

  /**
   * `open.filter(n => n !== current)`, order kept. The source drops the one object it
   * picked; this drops every cell equal to it. The two agree because a cell is appended
   * to the open list only when no equal cell is already on it (see `Relax`).
   */
  function Without(s: seq<Pos>, x: Pos): (r: seq<Pos>)
    ensures forall p :: p in r <==> p in s && p != x
    ensures |r| <= |s|
  {
    if s == [] then []
    else (if s[0] == x then [] else [s[0]]) + Without(s[1..], x)
  }

  /**
   * `open.reduce((a, b) => f[a] < f[b] ? a : b)`: the index of a lowest f-score, and on a
   * tie the last one, since the running choice is kept only when it is strictly lower.
   */
  method LowestScore(open: seq<Pos>, f: map<Pos, real>) returns (i: nat)
    requires |open| > 0 && forall p | p in open :: p in f
    ensures i < |open|
    ensures forall j | 0 <= j < |open| :: f[open[i]] <= f[open[j]]
    ensures forall j | i < j < |open| :: f[open[i]] < f[open[j]]
  {
    i := 0;
    for j := 1 to |open|
      invariant i < j
      invariant forall m | 0 <= m < j :: f[open[i]] <= f[open[m]]
      invariant forall m | i < m < j :: f[open[i]] < f[open[m]]
    {
      if !(f[open[i]] < f[open[j]]) {
        i := j;
      }
    }
  }

  /** The cells of an n-by-n grid. */
  ghost function Cells(n: int): set<Pos> {
    set x, y | 0 <= x < n && 0 <= y < n :: Pos(x, y)
  }

  lemma InCells(g: Board, p: Pos)
    requires InBounds(g, p)
    ensures p in Cells(|g|)
  {
    assert p == Pos(p.x, p.y);
  }

  /** What the search's bookkeeping promises between two steps. */
  ghost predicate SearchState(g: Board, start: Pos, end: Pos, open: seq<Pos>, closed: set<Pos>,
                              cameFrom: map<Pos, Pos>, gScore: map<Pos, int>, fScore: map<Pos, real>)
  {
    && start in gScore && gScore[start] == 0
    && (forall p | p in gScore && p != start :: gScore[p] >= 1)
    && (forall p | p in open :: p in gScore && p in fScore && p !in closed)
    && closed <= gScore.Keys
    && end !in closed
    && (if closed == {} then open == [start] else start in closed)
    // every parent link is one passable step from a finished cell, one unit of cost apart
    && (forall p | p in cameFrom ::
          && p != start && cameFrom[p] in closed && Adjacent(cameFrom[p], p) && Passable(g, p)
          && p in gScore && gScore[p] == gScore[cameFrom[p]] + 1)
    && (forall p | (p in open || p in closed) && p != start :: p in cameFrom)
  }

  /**
   * Follows the parent links back from `end`, building the path front to back (the source
   * pushes onto a list and reverses it, which yields the same sequence).
   */
  method TracePath(g: Board, start: Pos, end: Pos, open: seq<Pos>, closed: set<Pos>,
                   cameFrom: map<Pos, Pos>, gScore: map<Pos, int>, ghost fScore: map<Pos, real>)
    returns (path: seq<Pos>)
    requires SearchState(g, start, end, open, closed, cameFrom, gScore, fScore)
    requires end in open
    ensures IsPath(g, path, start, end)
    ensures start == end ==> path == [start]
  {
    var current := end;
    path := [current];
    while current in cameFrom
      invariant current in gScore && (current in open || current in closed)
      invariant IsPath(g, path, current, end)
      invariant start == end ==> path == [end] && current == end
      decreases gScore[current]
    {
      current := cameFrom[current];
      path := [current] + path;
    }
  }

  /**
   * One pass of the neighbour loop for `offset`: skip a cell outside the grid, a wall or a
   * closed cell; otherwise open it, or re-parent it when the new route is strictly cheaper.
   */
  method Relax(g: Board, start: Pos, end: Pos, estimate: (Pos, Pos) -> real, current: Pos, k: nat,
               open: seq<Pos>, closed: set<Pos>, cameFrom: map<Pos, Pos>,
               gScore: map<Pos, int>, fScore: map<Pos, real>, ghost universe: set<Pos>)
    returns (open': seq<Pos>, cameFrom': map<Pos, Pos>, gScore': map<Pos, int>, fScore': map<Pos, real>)
    requires k < |Offsets|
    requires SearchState(g, start, end, open, closed, cameFrom, gScore, fScore)
    requires current in closed && start in closed
    requires Cells(|g|) <= universe
    ensures SearchState(g, start, end, open', closed, cameFrom', gScore', fScore')
    ensures forall p | p in open :: p in open'
    ensures forall p | p in open' :: p in open || p in universe
    ensures Passable(g, Neighbor(current, k)) ==> Neighbor(current, k) in closed || Neighbor(current, k) in open'
  {
    open', cameFrom', gScore', fScore' := open, cameFrom, gScore, fScore;
    var neighbor := Neighbor(current, k);
    if neighbor.x < 0 || neighbor.x >= |g| || neighbor.y < 0 || neighbor.y >= |g| {
      return;
    }
    if g[neighbor.y][neighbor.x].kind == Wall {
      return;
    }
    if neighbor in closed {
      return;
    }
    var tentativeG := gScore[current] + 1;
    if neighbor !in open {
      InCells(g, neighbor);
      open' := open + [neighbor];
    } else {
      // index.js reads a recorded 0 as "no score" (`gScore[n] || Infinity`); script.js
      // compares with it directly. Only the start cell scores 0, and it is closed by now,
      // so the two builds take the same branch.
      assert gScore[neighbor] != 0;
      if tentativeG >= gScore[neighbor] {
        return;
      }
    }
    cameFrom' := cameFrom[neighbor := current];
    gScore' := gScore[neighbor := tentativeG];
    fScore' := fScore[neighbor := tentativeG as real + estimate(neighbor, end)];
  }

  /** Every passable cell next to a closed cell has been opened or closed. */
  ghost predicate Frontier(g: Board, open: seq<Pos>, closed: set<Pos>, done: Pos -> bool) {
    forall c, d | c in closed && done(c) && Adjacent(c, d) && Passable(g, d) :: d in closed || d in open
  }

  /** Moving the chosen cell from the open list to the closed set keeps the bookkeeping ... */
  lemma CloseCell(g: Board, start: Pos, end: Pos, open: seq<Pos>, closed: set<Pos>,
                  cameFrom: map<Pos, Pos>, gScore: map<Pos, int>, fScore: map<Pos, real>, current: Pos)
    requires SearchState(g, start, end, open, closed, cameFrom, gScore, fScore)
    requires current in open && current != end
    ensures SearchState(g, start, end, Without(open, current), closed + {current}, cameFrom, gScore, fScore)
    ensures start in closed + {current}
  {
    if closed == {} {
      assert current == start;
    }
  }

  /** ... and leaves only the new closed cell's neighbours to be looked at. */
  lemma CloseCellFrontier(g: Board, open: seq<Pos>, closed: set<Pos>, current: Pos)
    requires Frontier(g, open, closed, c => true)
    ensures Frontier(g, Without(open, current), closed + {current}, c => c != current)
  {
  }

  /**
   * The neighbour loop of one search step: tries the four offsets of `current` in order.
   * Afterwards every passable neighbour of every closed cell is open or closed.
   */
  method Expand(g: Board, start: Pos, end: Pos, estimate: (Pos, Pos) -> real, current: Pos,
                open: seq<Pos>, closed: set<Pos>, cameFrom: map<Pos, Pos>,
                gScore: map<Pos, int>, fScore: map<Pos, real>, ghost universe: set<Pos>)
    returns (open': seq<Pos>, cameFrom': map<Pos, Pos>, gScore': map<Pos, int>, fScore': map<Pos, real>)
    requires SearchState(g, start, end, open, closed, cameFrom, gScore, fScore)
    requires current in closed && start in closed
    requires Cells(|g|) <= universe && forall p | p in open :: p in universe
    requires Frontier(g, open, closed, c => c != current)
    ensures SearchState(g, start, end, open', closed, cameFrom', gScore', fScore')
    ensures forall p | p in open' :: p in universe
    ensures Frontier(g, open', closed, c => true)
  {
    open', cameFrom', gScore', fScore' := open, cameFrom, gScore, fScore;
    for k := 0 to |Offsets|
      invariant SearchState(g, start, end, open', closed, cameFrom', gScore', fScore')
      invariant forall p | p in open' :: p in universe
      invariant forall p | p in open :: p in open'
      invariant forall j | 0 <= j < k && Passable(g, Neighbor(current, j)) ::
                  Neighbor(current, j) in closed || Neighbor(current, j) in open'
    {
      ghost var before := open';
      open', cameFrom', gScore', fScore' :=
        Relax(g, start, end, estimate, current, k, open', closed, cameFrom', gScore', fScore', universe);
      forall j | 0 <= j < k + 1 && Passable(g, Neighbor(current, j))
        ensures Neighbor(current, j) in closed || Neighbor(current, j) in open'
      {
        var n := Neighbor(current, j);
        if j < k && n !in closed {
          assert n in before;
        }
      }
    }
    forall c, d | c in closed && Adjacent(c, d) && Passable(g, d)
      ensures d in closed || d in open'
    {
      if c == current {
        var k := Direction(c, d);
      }
    }
  }

  /**
   * `findPath(start, end)`. `estimate` stands for the straight-line distance the source
   * adds to g to rank open cells; which path is found depends on it, but the result is a
   * walk from `start` to `end` over non-wall cells for any estimate, and the empty result
   * means that no such walk exists. The grid is a value: the search never changes it.
   */
  method FindPath(g: Board, start: Pos, end: Pos, estimate: (Pos, Pos) -> real) returns (path: seq<Pos>)
    ensures path == [] || IsPath(g, path, start, end)
    ensures path == [] <==> !Connected(g, start, end)
    ensures start == end ==> path == [start]
  {
    var open := [start];
    var closed: set<Pos> := {};
    var cameFrom: map<Pos, Pos> := map[];
    var gScore := map[start := 0];
    var fScore := map[start := estimate(start, end)];
    ghost var universe := Cells(|g|) + {start};

    while |open| > 0
      invariant SearchState(g, start, end, open, closed, cameFrom, gScore, fScore)
      invariant forall p | p in open :: p in universe
      invariant closed <= universe
      invariant Frontier(g, open, closed, c => true)
      decreases |universe - closed|
    {
      var i := LowestScore(open, fScore);
      var current := open[i];

      if current == end {
        path := TracePath(g, start, end, open, closed, cameFrom, gScore, fScore);
        return;
      }

      CloseCell(g, start, end, open, closed, cameFrom, gScore, fScore, current);
      CloseCellFrontier(g, open, closed, current);
      open := Without(open, current);
      closed := closed + {current};
      open, cameFrom, gScore, fScore :=
        Expand(g, start, end, estimate, current, open, closed, cameFrom, gScore, fScore, universe);
    }

    RegionSeparates(g, closed, start, end);
    path := [];
  }
}
