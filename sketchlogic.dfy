/**
 * The SketchLogic build (`script.js`): a `Maze` that owns the grid, a `Player`, enemies
 * kept as plain records in the game's list, and a `Game` that wires them together frame
 * by frame. Warning tiles last 1.5 seconds, enemies step every 700 ms, the exit is the
 * fixed cell (13,13), and a taken item is not replaced.
 *
 * Every random draw of the source is a parameter here: the wall draws of `generate`, the
 * cells the adapter tries, the enemy and item spawn cells, and whether a frame adapts.
 */
module SketchLogic {
  import opened Grid
  import AStar
  import opened MazeRules
  import opened Items
  import opened Pursuit

  const GridSize := 15
  /** Milliseconds a scribbled-out tile spends as a warning before it hardens. */
  const WarningTime := 1500
  /** Milliseconds between two enemy steps. */
  const EnemyMoveInterval := 700
  /** Items placed at the start of a level. */
  const ItemCount := 3
  /** The exit cell, written as a literal in the source. */
  const Exit := Pos(13, 13)

  class Maze {
    const size: nat
    var grid: Board

    ghost predicate Valid()
      reads this
    {
      |grid| == size && size >= 2
    }

    /** `new Maze(size)`: a freshly generated grid. */
    constructor (size: nat, isWall: (int, int) -> bool)
      requires size >= 2
      ensures Valid() && this.size == size
      ensures grid == Generated(size, isWall)
    {
      this.size := size;
      grid := [];
      new;
      Generate(isWall);
    }

    /**
     * Builds the grid row by row: border cells are walls, each interior cell is a wall
     * when its draw says so, and then (1,1) and (size-2,size-2) are cleared to floor.
     * Border cells carry no timer in the source; here their timer is 0, which nothing reads.
     */
    method Generate(isWall: (int, int) -> bool)
      requires size >= 2
      modifies this
      ensures Valid()
      ensures grid == Generated(size, isWall)
    {
      var rows: seq<seq<Cell>> := [];
      for y := 0 to size
        invariant |rows| == y
        invariant forall j | 0 <= j < y :: rows[j] == seq(size, x => Layout(size, isWall, x, j))
      {
        var row: seq<Cell> := [];
        for x := 0 to size
          invariant row == seq(x, i => Layout(size, isWall, i, y))
        {
          if x == 0 || y == 0 || x == size - 1 || y == size - 1 {
            row := row + [Cell(Wall, 0)];
          } else {
            row := row + [Cell(if isWall(x, y) then Wall else Floor, 0)];
          }
        }
        rows := rows + [row];
      }
      assert rows == seq(size, y => seq(size, x => Layout(size, isWall, x, y)));
      grid := rows;
      grid := WithKind(grid, Pos(1, 1), Floor);
      grid := WithKind(grid, Pos(size - 2, size - 2), Floor);
    }

    /** `findPath(start, end)` on the current grid. */
    method FindPath(start: Pos, end: Pos, estimate: (Pos, Pos) -> real) returns (path: seq<Pos>)
      ensures path == [] || IsPath(grid, path, start, end)
      ensures path == [] <==> !Connected(grid, start, end)
      ensures start == end ==> path == [start]
    {
      path := AStar.FindPath(grid, start, end, estimate);
    }

    /**
     * `adapt(playerPos, exitPos)`: up to five drawn cells are tried in turn. A floor cell
     * more than 2 and less than 6 cells from the player is walled; if the player still
     * reaches the exit the wall is turned into a warning tile with 1.5 seconds left and the
     * method reports success, otherwise the cell goes back to floor.
     */
    method Adapt(playerPos: Pos, exitPos: Pos, draws: seq<Pos>, estimate: (Pos, Pos) -> real)
      returns (adapted: bool)
      requires Valid()
      requires |draws| == AdaptAttempts
      requires forall c | c in draws :: InBounds(grid, c) && Interior(grid, c)
      modifies this
      ensures Valid()
      ensures (adapted, grid) == Adapted(old(grid), draws, playerPos, exitPos, WarningTime)
    {
      ghost var g0 := grid;
      for i := 0 to AdaptAttempts
        invariant grid == g0 && Valid()
        invariant Adapted(g0, draws, playerPos, exitPos, WarningTime) ==
                  Adapted(g0, draws[i..], playerPos, exitPos, WarningTime)
      {
        var r := draws[i];
        assert r in draws;
        assert draws[i..][0] == r && draws[i..][1..] == draws[i + 1..];
        if grid[r.y][r.x].kind == Floor && 4 < Dist2(r, playerPos) < 36 {
          grid := WithKind(grid, r, Wall);
          var path := FindPath(playerPos, exitPos, estimate);
          if |path| > 0 {
            grid := WithKind(grid, r, Warning);
            grid := WithTimer(grid, r, WarningTime);
            SameCells(grid, Put(g0, r, Cell(Warning, WarningTime)));
            return true;
          }
          grid := WithKind(grid, r, Floor);
          SameCells(grid, g0);
        }
      }
      return false;
    }

    /**
     * `update(dt)`: every warning tile's timer drops by dt, and a tile whose timer is at or
     * below zero becomes a wall.
     */
    method Update(dt: int)
      requires Valid()
      modifies this
      ensures Valid()
      ensures grid == Countdown(old(grid), dt)
    {
      ghost var g0 := grid;
      for y := 0 to size
        invariant Valid()
        invariant forall p | InBounds(grid, p) ::
                    At(grid, p) == if p.y < y then Tick(At(g0, p), dt) else At(g0, p)
      {
        for x := 0 to size
          invariant Valid()
          invariant forall p | InBounds(grid, p) ::
                      At(grid, p) == if p.y < y || (p.y == y && p.x < x) then Tick(At(g0, p), dt) else At(g0, p)
        {
          if grid[y][x].kind == Warning {
            grid := WithTimer(grid, Pos(x, y), grid[y][x].warningTimer - dt);
            if grid[y][x].warningTimer <= 0 {
              grid := WithKind(grid, Pos(x, y), Wall);
            }
          }
        }
      }
      SameCells(grid, Countdown(g0, dt));
    }
  }

  class Player {
    var gx: int
    var gy: int
    var health: int
    var score: int
    /** Set by a move and cleared once the drawn position has caught up with the grid cell. */
    var moving: bool

    constructor (x: int, y: int)
      ensures Position() == Pos(x, y) && health == MaxHealth && score == 0 && !moving
    {
      gx, gy := x, y;
      health, score := MaxHealth, 0;
      moving := false;
    }

    function Position(): Pos
      reads this
    {
      Pos(gx, gy)
    }

    /**
     * `move(dx, dy, maze)`: ignored while a move is still being shown or when the target
     * cell is a wall; otherwise the player steps there and scores one point per step.
     */
    method Move(dx: int, dy: int, maze: Maze)
      requires maze.Valid()
      requires !moving ==> InBounds(maze.grid, Pos(gx + dx, gy + dy))
      modifies this
      ensures var target := Pos(old(gx) + dx, old(gy) + dy);
              if !old(moving) && Passable(maze.grid, target) then
                && Position() == target && moving
                && score == old(score) + 1 && health == old(health)
              else
                unchanged(this)
      ensures BorderIsWall(maze.grid) && Interior(maze.grid, old(Position())) ==> Interior(maze.grid, Position())
    {
      if moving {
        return;
      }
      if maze.grid[gy + dy][gx + dx].kind != Wall {
        assert !OnBorder(maze.grid, Pos(gx + dx, gy + dy)) || !BorderIsWall(maze.grid);
        gx := gx + dx;
        gy := gy + dy;
        moving := true;
        score := score + 1;
      }
    }

    /**
     * `update(dt)`: the drawn position slides toward the grid cell; `snapped` says whether
     * it has come within 0.01 of it on both axes, which ends the move.
     */
    method Update(snapped: bool)
      modifies this`moving
      ensures moving == (old(moving) && !snapped)
    {
      if moving && snapped {
        moving := false;
      }
    }
  }

  /** One frame of one enemy record: count the frame time and, once past 700 ms, search a path to `target` and step. */
  method StepEnemy(en: Chaser, dt: int, maze: Maze, target: Pos, estimate: (Pos, Pos) -> real)
    returns (next: Chaser)
    ensures Pursued(maze.grid, en, next, dt, target, EnemyMoveInterval)
  {
    next := en.(timer := en.timer + dt);
    if next.timer > EnemyMoveInterval {
      next := next.(timer := 0);
      var path := maze.FindPath(next.pos, target, estimate);
      next := next.(path := path);
      if |path| > 1 {
        next := next.(pos := path[1]);
      }
    }
  }

  class Game {
    const maze: Maze
    const player: Player
    var enemies: seq<Chaser>
    var items: seq<Item>
    var running: bool
    var level: int

    /**
     * What every frame keeps: the 15-by-15 grid is walled all round, the player and every
     * enemy stand inside it, the level is at least 1, health never exceeds 100 and the
     * score never goes negative.
     */
    ghost predicate Valid()
      reads this`level, this`enemies, maze, player
    {
      && maze.Valid() && maze.size == GridSize && BorderIsWall(maze.grid)
      && level >= 1 && player.health <= MaxHealth && player.score >= 0
      && InBounds(maze.grid, player.Position()) && Interior(maze.grid, player.Position())
      && (forall e | e in enemies :: InBounds(maze.grid, e.pos) && Interior(maze.grid, e.pos))
    }

    /** `new Game()` without the page: a generated maze, the player on (1,1), level 1, not running. */
    constructor (isWall: (int, int) -> bool)
      ensures Valid()
      ensures maze.grid == Generated(GridSize, isWall)
      ensures player.Position() == Pos(1, 1) && player.health == MaxHealth && player.score == 0
      ensures !player.moving
      ensures enemies == [] && items == [] && level == 1 && !running
      ensures fresh(maze) && fresh(player)
    {
      maze := new Maze(GridSize, isWall);
      player := new Player(1, 1);
      enemies := [];
      items := [];
      running := false;
      level := 1;
    }

    /** The key and touch handlers: a unit move, forwarded to the player while the game runs. */
    method HandleMove(dx: int, dy: int)
      requires Valid()
      requires Adjacent(Pos(0, 0), Pos(dx, dy))
      modifies player
      ensures Valid()
      ensures var target := Pos(old(player.gx) + dx, old(player.gy) + dy);
              if running && !old(player.moving) && Passable(maze.grid, target) then
                && player.Position() == target && player.moving
                && player.score == old(player.score) + 1 && player.health == old(player.health)
              else
                unchanged(player)
    {
      if running {
        player.Move(dx, dy, maze);
      }
    }

    /**
     * `startLevel`: a new grid, the player back on (1,1), 1 + level/2 enemies on the
     * non-wall cells the spawn loop settles on, and three items on floor cells. The
     * solvability search the source runs here has its result discarded.
     */
    method StartLevel(isWall: (int, int) -> bool, enemySpots: seq<Pos>, newItems: seq<Item>,
                      estimate: (Pos, Pos) -> real)
      requires Valid()
      requires |enemySpots| == 1 + level / 2
      requires forall p | p in enemySpots ::
                 && 5 <= p.x <= 13 && 5 <= p.y <= 13
                 && At(Generated(GridSize, isWall), p).kind != Wall
      requires |newItems| == ItemCount
      requires forall it | it in newItems ::
                 && 1 <= it.x <= 13 && 1 <= it.y <= 13
                 && At(Generated(GridSize, isWall), Pos(it.x, it.y)).kind == Floor
      modifies this`running, this`enemies, this`items, maze, player`gx, player`gy
      ensures Valid() && running && level == old(level)
      ensures maze.grid == Generated(GridSize, isWall)
      ensures player.Position() == Pos(1, 1)
      ensures enemies == seq(|enemySpots|, i requires 0 <= i < |enemySpots| => Spawned(enemySpots[i]))
      ensures forall e | e in enemies :: Passable(maze.grid, e.pos)
      ensures items == newItems
    {
      running := true;
      ResetMaze(isWall, estimate);
      SpawnEnemies(enemySpots);
      SpawnItems(newItems);
    }

    /**
     * The first part of `startLevel`: a freshly generated grid, the solvability search
     * (whose result is not used) and the player put back on (1,1).
     */
    method ResetMaze(isWall: (int, int) -> bool, estimate: (Pos, Pos) -> real)
      requires Valid()
      modifies maze, player`gx, player`gy
      ensures Valid()
      ensures maze.grid == Generated(GridSize, isWall) && player.Position() == Pos(1, 1)
    {
      maze.Generate(isWall);
      var solvable := maze.FindPath(Pos(1, 1), Exit, estimate);
      player.gx, player.gy := 1, 1;
    }

    /** The enemy loop of `startLevel`: one enemy record per spawn cell, timer at zero and no path. */
    method SpawnEnemies(spots: seq<Pos>)
      requires Valid()
      requires forall p | p in spots :: 5 <= p.x <= 13 && 5 <= p.y <= 13 && At(maze.grid, p).kind != Wall
      modifies this`enemies
      ensures Valid()
      ensures enemies == seq(|spots|, i requires 0 <= i < |spots| => Spawned(spots[i]))
      ensures forall e | e in enemies :: Passable(maze.grid, e.pos)
    {
      var spawned: seq<Chaser> := [];
      for i := 0 to |spots|
        invariant spawned == seq(i, j requires 0 <= j < i => Spawned(spots[j]))
      {
        spawned := spawned + [Spawned(spots[i])];
      }
      enemies := spawned;
      forall e | e in enemies
        ensures InBounds(maze.grid, e.pos) && Interior(maze.grid, e.pos) && Passable(maze.grid, e.pos)
      {
        var i :| 0 <= i < |enemies| && enemies[i] == e;
        assert spots[i] in spots;
      }
    }

    /** The item loop of `startLevel`: the list is emptied and three items are placed. */
    method SpawnItems(newItems: seq<Item>)
      requires |newItems| == ItemCount
      requires forall it | it in newItems ::
                 Interior(maze.grid, Pos(it.x, it.y)) && At(maze.grid, Pos(it.x, it.y)).kind == Floor
      modifies this`items
      ensures items == newItems
    {
      items := [];
      for i := 0 to ItemCount
        invariant items == newItems[..i]
      {
        items := items + [newItems[i]];
      }
    }

    /**
     * `endGame(win)`: the game stops; a win moves on to the next level, a loss starts over
     * at level 1 with the score cleared and full health.
     */
    method EndGame(win: bool)
      requires Valid()
      modifies this`running, this`level, player`score, player`health
      ensures Valid() && !running
      ensures win ==> level == old(level) + 1 && player.score == old(player.score) && player.health == old(player.health)
      ensures !win ==> level == 1 && player.score == 0 && player.health == MaxHealth
    {
      running := false;
      if win {
        level := level + 1;
      } else {
        level := 1;
        player.score := 0;
        player.health := MaxHealth;
      }
    }

    /** The enemy step of `update`: every enemy record chases the player's current cell. */
    method MoveEnemies(dt: int, estimate: (Pos, Pos) -> real)
      requires Valid()
      modifies this`enemies
      ensures Valid()
      ensures |enemies| == |old(enemies)|
      ensures forall i | 0 <= i < |enemies| ::
                Pursued(maze.grid, old(enemies[i]), enemies[i], dt, player.Position(), EnemyMoveInterval)
    {
      var target := player.Position();
      for i := 0 to |enemies|
        invariant Valid()
        invariant |enemies| == |old(enemies)|
        invariant forall j | 0 <= j < i :: Pursued(maze.grid, old(enemies[j]), enemies[j], dt, target, EnemyMoveInterval)
        invariant forall j | i <= j < |enemies| :: enemies[j] == old(enemies[j])
      {
        var en := enemies[i];
        assert en in enemies;
        var next := StepEnemy(en, dt, maze, target, estimate);
        ChaseStaysInside(maze.grid, en, next, dt, target, EnemyMoveInterval);
        enemies := enemies[i := next];
      }
    }

    /**
     * The item step of `update`: the list is scanned from the end, and each item on the
     * player's cell is applied and spliced out. Nothing replaces it.
     */
    method CollectItems()
      requires Valid()
      modifies this`items, player`health, player`score
      ensures Valid()
      ensures items == Remaining(old(items), player.Position())
      ensures player.health == HealthAfter(old(player.health), old(items), player.Position())
      ensures player.score == ScoreAfter(old(player.score), old(items), player.Position())
    {
      var p := player.Position();
      var left, health, score := Pickup(items, p, [], false, player.health, player.score);
      HealthAfterBounds(player.health, items, p);
      ScoreAfterCounts(player.score, items, p);
      assert left == Remaining(items, p) + [];
      items := left;
      player.health, player.score := health, score;
      assert maze.grid == old(maze.grid) && enemies == old(enemies);
    }

    /** The win step of `update`: standing on (13,13) ends the level as a win. */
    method CheckWin()
      requires Valid()
      modifies this`running, this`level, player`score, player`health
      ensures Valid()
      ensures player.Position() == Exit ==> !running && level == old(level) + 1
      ensures player.Position() != Exit ==> running == old(running) && level == old(level)
      ensures player.score == old(player.score) && player.health == old(player.health)
    {
      if player.gx == 13 && player.gy == 13 {
        EndGame(true);
      }
    }

    /**
     * The first steps of `update(dt)`: the player's slide advances, the maze counts down,
     * and the maze may adapt (`adaptRoll` is the 0.3% draw). A floor tile afterwards was a
     * floor tile before, and only a drawn cell can have changed otherwise.
     */
    method AdvanceMaze(dt: int, snapped: bool, adaptRoll: bool, draws: seq<Pos>, estimate: (Pos, Pos) -> real)
      requires Valid()
      requires |draws| == AdaptAttempts
      requires forall c | c in draws :: 1 <= c.x <= 13 && 1 <= c.y <= 13
      modifies maze, player`moving
      ensures Valid()
      ensures var counted := Countdown(old(maze.grid), dt);
              maze.grid == if adaptRoll then Adapted(counted, draws, player.Position(), Exit, WarningTime).1 else counted
      ensures player.moving == (old(player.moving) && !snapped)
      ensures forall q | InBounds(maze.grid, q) && At(old(maze.grid), q).kind == Floor && q !in draws ::
                At(maze.grid, q).kind == Floor
    {
      player.Update(snapped);
      maze.Update(dt);
      ghost var counted := maze.grid;
      if adaptRoll {
        AdaptedKeepsBorder(counted, draws, player.Position(), Exit, WarningTime);
        AdaptedOutcome(counted, draws, player.Position(), Exit, WarningTime);
        var adapted := maze.Adapt(player.Position(), Exit, draws, estimate);
      }
    }

    /**
     * One frame of `update(dt)`: the player's slide advances, the maze counts down and may
     * adapt, the enemies chase the player, the items under the player are taken, and
     * standing on (13,13) wins. The enemy collision test has no effect (see README).
     */
    method Update(dt: int, snapped: bool, adaptRoll: bool, draws: seq<Pos>, estimate: (Pos, Pos) -> real)
      requires Valid()
      requires |draws| == AdaptAttempts
      requires forall c | c in draws :: 1 <= c.x <= 13 && 1 <= c.y <= 13
      modifies this, maze, player
      ensures Valid()
      ensures var counted := Countdown(old(maze.grid), dt);
              maze.grid == if adaptRoll then Adapted(counted, draws, old(player.Position()), Exit, WarningTime).1 else counted
      ensures player.Position() == old(player.Position())
      ensures player.moving == (old(player.moving) && !snapped)
      ensures |enemies| == |old(enemies)|
      ensures forall i | 0 <= i < |enemies| ::
                Pursued(maze.grid, old(enemies[i]), enemies[i], dt, player.Position(), EnemyMoveInterval)
      ensures items == Remaining(old(items), player.Position())
      ensures player.health == HealthAfter(old(player.health), old(items), player.Position())
      ensures player.score == ScoreAfter(old(player.score), old(items), player.Position())
      ensures running == (old(running) && player.Position() != Exit)
      ensures level == old(level) + (if player.Position() == Exit then 1 else 0)
    {
      AdvanceMaze(dt, snapped, adaptRoll, draws, estimate);
      MoveEnemies(dt, estimate);
      CollectItems();
      CheckWin();
    }
  }
}
