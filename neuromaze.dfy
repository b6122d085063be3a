/**
 * The NeuroMaze build (`index.js`): a `Maze` that owns the grid, a `Player`, chasing
 * `Enemy` objects, and a `Game` that wires them together frame by frame.
 *
 * Every random draw of the source is a parameter here: the wall draws of `generate`, the
 * cells the adapter tries, the enemy and item spawn cells, and whether a frame adapts.
 */
module NeuroMaze {
  import opened Grid
  import AStar
  import opened MazeRules
  import opened Items
  import opened Pursuit

  const GridSize := 15
  /** Milliseconds a tile spends as a warning before it hardens. */
  const WarningTime := 2000
  /** Milliseconds between two enemy steps. */
  const EnemyMoveInterval := 600
  /** Items placed at the start of a level. */
  const ItemCount := 3

  class Maze {
    const size: nat
    var grid: Board

    ghost predicate Valid()
      reads this
    {
      |grid| == size && size >= 2
    }

    /** `new Maze(size)`: a freshly generated grid. */
    constructor (size: nat, isWall: (int, int) -> bool)
      requires size >= 2
      ensures Valid() && this.size == size
      ensures grid == Generated(size, isWall)
    {
      this.size := size;
      grid := [];
      new;
      Generate(isWall);
    }

    /**
     * Builds the grid row by row: border cells are walls, each interior cell is a wall
     * when its draw says so, and then the start (1,1) and the exit (size-2,size-2) are
     * cleared to floor. Border cells carry no timer in the source; here their timer is 0,
     * which nothing reads.
     */
    method Generate(isWall: (int, int) -> bool)
      requires size >= 2
      modifies this
      ensures Valid()
      ensures grid == Generated(size, isWall)
    {
      var rows: seq<seq<Cell>> := [];
      for y := 0 to size
        invariant |rows| == y
        invariant forall j | 0 <= j < y :: rows[j] == seq(size, x => Layout(size, isWall, x, j))
      {
        var row: seq<Cell> := [];
        for x := 0 to size
          invariant row == seq(x, i => Layout(size, isWall, i, y))
        {
          if x == 0 || y == 0 || x == size - 1 || y == size - 1 {
            row := row + [Cell(Wall, 0)];
          } else {
            row := row + [Cell(if isWall(x, y) then Wall else Floor, 0)];
          }
        }
        rows := rows + [row];
      }
      assert rows == seq(size, y => seq(size, x => Layout(size, isWall, x, y)));
      grid := rows;
      grid := WithKind(grid, Pos(1, 1), Floor);
      grid := WithKind(grid, Pos(size - 2, size - 2), Floor);
    }

    /** `findPath(start, end)` on the current grid. */
    method FindPath(start: Pos, end: Pos, estimate: (Pos, Pos) -> real) returns (path: seq<Pos>)
      ensures path == [] || IsPath(grid, path, start, end)
      ensures path == [] <==> !Connected(grid, start, end)
      ensures start == end ==> path == [start]
    {
      path := AStar.FindPath(grid, start, end, estimate);
    }

    /**
     * `adaptToPlayer`: up to five drawn cells are tried in turn. A floor cell more than 2 and
     * less than 6 cells from the player is walled for a trial search; the wall is taken
     * back, and if the player could still reach the exit the cell becomes a warning tile
     * with two seconds left and the method reports success.
     */
    method AdaptToPlayer(playerPos: Pos, exitPos: Pos, draws: seq<Pos>, estimate: (Pos, Pos) -> real)
      returns (adapted: bool)
      requires Valid()
      requires |draws| == AdaptAttempts
      requires forall c | c in draws :: InBounds(grid, c) && Interior(grid, c)
      modifies this
      ensures Valid()
      ensures (adapted, grid) == Adapted(old(grid), draws, playerPos, exitPos, WarningTime)
    {
      ghost var g0 := grid;
      var attempt := 0;
      while attempt < AdaptAttempts
        invariant 0 <= attempt <= AdaptAttempts
        invariant grid == g0 && Valid()
        invariant Adapted(g0, draws, playerPos, exitPos, WarningTime) ==
                  Adapted(g0, draws[attempt..], playerPos, exitPos, WarningTime)
      {
        var r := draws[attempt];
        assert r in draws;
        assert draws[attempt..][0] == r && draws[attempt..][1..] == draws[attempt + 1..];
        if grid[r.y][r.x].kind == Floor && 4 < Dist2(r, playerPos) < 36 {
          grid := WithKind(grid, r, Wall);
          var path := FindPath(playerPos, exitPos, estimate);
          var pathExists := |path| > 0;
          grid := WithKind(grid, r, Floor);
          SameCells(grid, g0);
          if pathExists {
            grid := WithKind(grid, r, Warning);
            grid := WithTimer(grid, r, WarningTime);
            SameCells(grid, Put(g0, r, Cell(Warning, WarningTime)));
            return true;
          }
        }
        attempt := attempt + 1;
      }
      return false;
    }

    /**
     * `update(dt)`: every warning tile's timer drops by dt, and a tile whose timer is at or
     * below zero becomes a wall.
     */
    method Update(dt: int)
      requires Valid()
      modifies this
      ensures Valid()
      ensures grid == Countdown(old(grid), dt)
    {
      ghost var g0 := grid;
      for y := 0 to size
        invariant Valid()
        invariant forall p | InBounds(grid, p) ::
                    At(grid, p) == if p.y < y then Tick(At(g0, p), dt) else At(g0, p)
      {
        for x := 0 to size
          invariant Valid()
          invariant forall p | InBounds(grid, p) ::
                      At(grid, p) == if p.y < y || (p.y == y && p.x < x) then Tick(At(g0, p), dt) else At(g0, p)
        {
          var cell := grid[y][x];
          if cell.kind == Warning {
            grid := WithTimer(grid, Pos(x, y), cell.warningTimer - dt);
            if grid[y][x].warningTimer <= 0 {
              grid := WithKind(grid, Pos(x, y), Wall);
            }
          }
        }
      }
      SameCells(grid, Countdown(g0, dt));
    }
  }

  class Player {
    var gridX: int
    var gridY: int
    var health: int
    var score: int
    /** Set by a move and cleared once the drawn position has caught up with the grid cell. */
    var isMoving: bool
    var moveTimer: int

    constructor (x: int, y: int)
      ensures Position() == Pos(x, y) && health == MaxHealth && score == 0
      ensures !isMoving && moveTimer == 0
    {
      gridX, gridY := x, y;
      health, score := MaxHealth, 0;
      isMoving, moveTimer := false, 0;
    }

    function Position(): Pos
      reads this
    {
      Pos(gridX, gridY)
    }

    /**
     * `move(dx, dy, maze)`: ignored while a move is still being shown or when the target
     * cell is a wall; otherwise the player steps there and scores one point per step.
     */
    method Move(dx: int, dy: int, maze: Maze)
      requires maze.Valid()
      requires !isMoving ==> InBounds(maze.grid, Pos(gridX + dx, gridY + dy))
      modifies this
      ensures var target := Pos(old(gridX) + dx, old(gridY) + dy);
              if !old(isMoving) && Passable(maze.grid, target) then
                && Position() == target && isMoving && moveTimer == 0
                && score == old(score) + 1 && health == old(health)
              else
                unchanged(this)
      ensures BorderIsWall(maze.grid) && Interior(maze.grid, old(Position())) ==> Interior(maze.grid, Position())
    {
      if isMoving {
        return;
      }
      var targetX := gridX + dx;
      var targetY := gridY + dy;
      var cell := maze.grid[targetY][targetX];
      if cell.kind == Wall {
        return;
      }
      assert !OnBorder(maze.grid, Pos(targetX, targetY)) || !BorderIsWall(maze.grid);
      gridX := targetX;
      gridY := targetY;
      isMoving := true;
      moveTimer := 0;
      score := score + 1;
    }

    /**
     * `update(dt)`: the drawn position slides toward the grid cell; `snapped` says whether
     * it has come within 0.01 of it on both axes, which ends the move.
     */
    method Update(snapped: bool)
      modifies this`isMoving
      ensures isMoving == (old(isMoving) && !snapped)
    {
      if isMoving && snapped {
        isMoving := false;
      }
    }
  }

  class Enemy {
    var gridX: int
    var gridY: int
    var path: seq<Pos>
    var moveTimer: int
    const moveInterval: int

    constructor (x: int, y: int)
      ensures State() == Spawned(Pos(x, y)) && moveInterval == EnemyMoveInterval
    {
      gridX, gridY := x, y;
      path := [];
      moveTimer := 0;
      moveInterval := EnemyMoveInterval;
    }

    function Position(): Pos
      reads this
    {
      Pos(gridX, gridY)
    }

    function State(): Chaser
      reads this
    {
      Chaser(Position(), path, moveTimer)
    }

    /** `update(dt, maze, playerPos)`: count the frame time and take a step once the interval has passed. */
    method Update(dt: int, maze: Maze, playerPos: Pos, estimate: (Pos, Pos) -> real)
      modifies this
      ensures Pursued(maze.grid, old(State()), State(), dt, playerPos, moveInterval)
    {
      moveTimer := moveTimer + dt;
      if moveTimer > moveInterval {
        moveTimer := 0;
        CalculateMove(maze, playerPos, estimate);
      }
    }

    /** `calculateMove`: search a path to the player and step onto its second cell. */
    method CalculateMove(maze: Maze, playerPos: Pos, estimate: (Pos, Pos) -> real)
      modifies this`gridX, this`gridY, this`path
      ensures path == [] || IsPath(maze.grid, path, old(Position()), playerPos)
      ensures path == [] <==> !Connected(maze.grid, old(Position()), playerPos)
      ensures old(Position()) == playerPos ==> path == [playerPos]
      ensures Position() == if |path| > 1 then path[1] else old(Position())
    {
      path := maze.FindPath(Position(), playerPos, estimate);
      if |path| > 1 {
        gridX := path[1].x;
        gridY := path[1].y;
      }
    }
  }

  /** The enemy spawn cells that pass the floor test, in draw order. */
  function FloorSpots(g: Board, spots: seq<Pos>): (r: seq<Pos>)
    requires forall p | p in spots :: InBounds(g, p)
    ensures forall p :: p in r <==> p in spots && At(g, p).kind == Floor
    ensures |r| <= |spots|
  {
    if spots == [] then []
    else
      var last := spots[|spots| - 1];
      FloorSpots(g, spots[..|spots| - 1]) + (if At(g, last).kind == Floor then [last] else [])
  }

  /** Drawing one more spawn cell extends the floor spots by that cell exactly when it is a floor tile. */
  lemma FloorSpotsStep(g: Board, spots: seq<Pos>, i: int)
    requires 0 <= i < |spots|
    requires forall p | p in spots :: InBounds(g, p)
    ensures FloorSpots(g, spots[..i + 1]) ==
            FloorSpots(g, spots[..i]) + (if At(g, spots[i]).kind == Floor then [spots[i]] else [])
  {
    assert spots[..i + 1][..i] == spots[..i] && spots[..i + 1][i] == spots[i];
  }

  /** The spawn loop of `startLevel`: a new enemy on each drawn cell that is a floor tile, in draw order. */
  method SpawnOnFloor(g: Board, spots: seq<Pos>) returns (spawned: seq<Enemy>)
    requires forall p | p in spots :: InBounds(g, p)
    ensures |spawned| == |FloorSpots(g, spots)|
    ensures forall j | 0 <= j < |spawned| ::
              && fresh(spawned[j]) && spawned[j].moveInterval == EnemyMoveInterval
              && spawned[j].State() == Spawned(FloorSpots(g, spots)[j])
    ensures forall j, k | 0 <= j < k < |spawned| :: spawned[j] != spawned[k]
  {
    spawned := [];
    for i := 0 to |spots|
      invariant |spawned| == |FloorSpots(g, spots[..i])|
      invariant forall j | 0 <= j < |spawned| ::
                  && fresh(spawned[j]) && spawned[j].moveInterval == EnemyMoveInterval
                  && spawned[j].State() == Spawned(FloorSpots(g, spots[..i])[j])
      invariant forall j, k | 0 <= j < k < |spawned| :: spawned[j] != spawned[k]
    {
      FloorSpotsStep(g, spots, i);
      var spot := spots[i];
      assert InBounds(g, spot);
      if g[spot.y][spot.x].kind == Floor {
        var enemy := new Enemy(spot.x, spot.y);
        spawned := spawned + [enemy];
      }
    }
    assert spots[..|spots|] == spots;
  }

  class Game {
    const maze: Maze
    const player: Player
    var enemies: seq<Enemy>
    var items: seq<Item>
    var level: int
    var isRunning: bool
    const exitPos: Pos

    /**
     * What every frame keeps: the 15-by-15 grid is walled all round, the player and every
     * enemy stand inside it, the level is at least 1, health never exceeds 100 and the
     * score never goes negative.
     */
    ghost predicate Valid()
      reads this`level, this`enemies, maze, player, enemies
    {
      && maze.Valid() && maze.size == GridSize && BorderIsWall(maze.grid)
      && exitPos == Pos(GridSize - 2, GridSize - 2)
      && level >= 1 && player.health <= MaxHealth && player.score >= 0
      && InBounds(maze.grid, player.Position()) && Interior(maze.grid, player.Position())
      && (forall i, j | 0 <= i < j < |enemies| :: enemies[i] != enemies[j])
      && (forall e | e in enemies ::
            && e.moveInterval == EnemyMoveInterval
            && InBounds(maze.grid, e.Position()) && Interior(maze.grid, e.Position()))
    }

    /** `new Game()` without the page: a generated maze, the player on (1,1), level 1, not running. */
    constructor (isWall: (int, int) -> bool)
      ensures Valid()
      ensures maze.grid == Generated(GridSize, isWall)
      ensures player.Position() == Pos(1, 1) && player.health == MaxHealth && player.score == 0
      ensures !player.isMoving && player.moveTimer == 0
      ensures enemies == [] && items == [] && level == 1 && !isRunning
      ensures fresh(maze) && fresh(player)
    {
      maze := new Maze(GridSize, isWall);
      player := new Player(1, 1);
      enemies := [];
      items := [];
      level := 1;
      isRunning := false;
      exitPos := Pos(GridSize - 2, GridSize - 2);
    }

    /** The key and touch handlers: a unit move, forwarded to the player while the game runs. */
    method HandleMove(dx: int, dy: int)
      requires Valid()
      requires Adjacent(Pos(0, 0), Pos(dx, dy))
      modifies player
      ensures Valid()
      ensures var target := Pos(old(player.gridX) + dx, old(player.gridY) + dy);
              if isRunning && !old(player.isMoving) && Passable(maze.grid, target) then
                && player.Position() == target && player.isMoving && player.moveTimer == 0
                && player.score == old(player.score) + 1 && player.health == old(player.health)
              else
                unchanged(player)
    {
      if isRunning {
        player.Move(dx, dy, maze);
      }
    }

    /** `spawnItem`: `item` is the floor cell the retry loop settles on, with its drawn kind. */
    method SpawnItem(item: Item)
      requires Interior(maze.grid, Pos(item.x, item.y)) && At(maze.grid, Pos(item.x, item.y)).kind == Floor
      modifies this`items
      ensures items == old(items) + [item]
    {
      items := items + [item];
    }

    /**
     * `startLevel`: a new grid, the player back on (1,1), one enemy for each drawn spot that
     * is a floor tile (1 + level/2 draws), and three new items. The solvability search the
     * source runs here has its result discarded.
     */
    method StartLevel(isWall: (int, int) -> bool, enemySpots: seq<Pos>, newItems: seq<Item>,
                      estimate: (Pos, Pos) -> real)
      requires Valid()
      requires |enemySpots| == 1 + level / 2
      requires forall p | p in enemySpots :: 5 <= p.x <= GridSize - 2 && 5 <= p.y <= GridSize - 2
      requires |newItems| == ItemCount
      requires forall it | it in newItems ::
                 && 1 <= it.x <= GridSize - 2 && 1 <= it.y <= GridSize - 2
                 && At(Generated(GridSize, isWall), Pos(it.x, it.y)).kind == Floor
      modifies this`isRunning, this`enemies, this`items, maze, player`gridX, player`gridY
      ensures Valid() && isRunning && level == old(level)
      ensures maze.grid == Generated(GridSize, isWall)
      ensures player.Position() == Pos(1, 1)
      ensures |enemies| == |FloorSpots(maze.grid, enemySpots)|
      ensures forall i | 0 <= i < |enemies| ::
                fresh(enemies[i]) && enemies[i].State() == Spawned(FloorSpots(maze.grid, enemySpots)[i])
      ensures items == newItems
    {
      isRunning := true;
      ResetMaze(isWall, estimate);
      SpawnEnemies(enemySpots);
      SpawnItems(newItems);
    }

    /**
     * The first part of `startLevel`: a freshly generated grid, the solvability search
     * (whose result is not used) and the player put back on (1,1).
     */
    method ResetMaze(isWall: (int, int) -> bool, estimate: (Pos, Pos) -> real)
      requires Valid()
      modifies maze, player`gridX, player`gridY
      ensures Valid()
      ensures maze.grid == Generated(GridSize, isWall) && player.Position() == Pos(1, 1)
    {
      maze.Generate(isWall);
      var solvable := maze.FindPath(Pos(1, 1), exitPos, estimate);
      player.gridX, player.gridY := 1, 1;
    }

    /** The item loop of `startLevel`: the list is emptied and three items are spawned. */
    method SpawnItems(newItems: seq<Item>)
      requires |newItems| == ItemCount
      requires forall it | it in newItems ::
                 Interior(maze.grid, Pos(it.x, it.y)) && At(maze.grid, Pos(it.x, it.y)).kind == Floor
      modifies this`items
      ensures items == newItems
    {
      items := [];
      for i := 0 to ItemCount
        invariant items == newItems[..i]
        modifies this`items
      {
        SpawnItem(newItems[i]);
      }
    }

    /**
     * The enemy spawn loop of `startLevel`: one draw per enemy, and an enemy is placed only
     * where the drawn cell is a floor tile.
     */
    method SpawnEnemies(spots: seq<Pos>)
      requires Valid()
      requires forall p | p in spots :: 5 <= p.x <= GridSize - 2 && 5 <= p.y <= GridSize - 2
      modifies this`enemies
      ensures Valid()
      ensures |enemies| == |FloorSpots(maze.grid, spots)|
      ensures forall i | 0 <= i < |enemies| ::
                fresh(enemies[i]) && enemies[i].State() == Spawned(FloorSpots(maze.grid, spots)[i])
    {
      var spawned := SpawnOnFloor(maze.grid, spots);
      forall j | 0 <= j < |spawned|
        ensures InBounds(maze.grid, spawned[j].Position()) && Interior(maze.grid, spawned[j].Position())
      {
        assert FloorSpots(maze.grid, spots)[j] in FloorSpots(maze.grid, spots);
      }
      enemies := spawned;
      assert maze.grid == old(maze.grid);
    }

    /**
     * `gameOver(won)`: the game stops; a win moves on to the next level, a loss starts
     * over at level 1 with the score cleared and full health.
     */
    method GameOver(won: bool)
      requires Valid()
      modifies this`isRunning, this`level, player`score, player`health
      ensures Valid() && !isRunning
      ensures won ==> level == old(level) + 1 && player.score == old(player.score) && player.health == old(player.health)
      ensures !won ==> level == 1 && player.score == 0 && player.health == MaxHealth
    {
      isRunning := false;
      if won {
        level := level + 1;
      } else {
        level := 1;
        player.score := 0;
        player.health := MaxHealth;
      }
    }

    /**
     * The item step of `update`: the list is scanned from the end, each item on the
     * player's cell is applied and spliced out, and a replacement (the next of `spawns`)
     * is appended at the end, where the scan does not reach it.
     */
    method CollectItems(spawns: seq<Item>)
      requires Valid()
      requires CountOn(items, player.Position()) <= |spawns|
      requires forall s | s in spawns ::
                 Interior(maze.grid, Pos(s.x, s.y)) && At(maze.grid, Pos(s.x, s.y)).kind == Floor
      modifies this`items, player`health, player`score
      ensures Valid()
      ensures items == Remaining(old(items), player.Position()) + spawns[..CountOn(old(items), player.Position())]
      ensures player.health == HealthAfter(old(player.health), old(items), player.Position())
      ensures player.score == ScoreAfter(old(player.score), old(items), player.Position())
    {
      var p := player.Position();
      var left, health, score := Pickup(items, p, spawns, true, player.health, player.score);
      HealthAfterBounds(player.health, items, p);
      ScoreAfterCounts(player.score, items, p);
      items := left;
      player.health, player.score := health, score;
      assert maze.grid == old(maze.grid) && enemies == old(enemies);
    }

    /** The exit step of `update`: standing on the exit wins the level. */
    method CheckExit()
      requires Valid()
      modifies this`isRunning, this`level, player`score, player`health
      ensures Valid()
      ensures player.Position() == exitPos ==> !isRunning && level == old(level) + 1
      ensures player.Position() != exitPos ==> isRunning == old(isRunning) && level == old(level)
      ensures player.score == old(player.score) && player.health == old(player.health)
    {
      if player.gridX == exitPos.x && player.gridY == exitPos.y {
        GameOver(true);
      }
    }

    /** The enemy step of `update`: every enemy chases the player's current cell. */
    method MoveEnemies(dt: int, estimate: (Pos, Pos) -> real)
      requires Valid()
      modifies enemies
      ensures Valid()
      ensures forall i | 0 <= i < |enemies| ::
                Pursued(maze.grid, old(enemies[i].State()), enemies[i].State(), dt, player.Position(), EnemyMoveInterval)
    {
      var target := player.Position();
      for i := 0 to |enemies|
        invariant Valid()
        invariant forall j | 0 <= j < i ::
                    Pursued(maze.grid, old(enemies[j].State()), enemies[j].State(), dt, target, EnemyMoveInterval)
        invariant forall j | i <= j < |enemies| :: enemies[j].State() == old(enemies[j].State())
      {
        var enemy := enemies[i];
        enemy.Update(dt, maze, target, estimate);
        ChaseStaysInside(maze.grid, old(enemy.State()), enemy.State(), dt, target, EnemyMoveInterval);
      }
    }

    /**
     * The first steps of `update(dt)`: the maze counts down, the player's slide advances,
     * and the maze may adapt (`adaptRoll` is the 0.5% draw). A floor tile afterwards was a
     * floor tile before, and only a drawn cell can have changed otherwise.
     */
    method AdvanceMaze(dt: int, snapped: bool, adaptRoll: bool, draws: seq<Pos>, estimate: (Pos, Pos) -> real)
      requires Valid()
      requires |draws| == AdaptAttempts
      requires forall c | c in draws :: 1 <= c.x <= GridSize - 2 && 1 <= c.y <= GridSize - 2
      modifies maze, player`isMoving
      ensures Valid()
      ensures var p := player.Position();
              var counted := Countdown(old(maze.grid), dt);
              maze.grid == if adaptRoll then Adapted(counted, draws, p, exitPos, WarningTime).1 else counted
      ensures player.isMoving == (old(player.isMoving) && !snapped)
      ensures forall q | InBounds(maze.grid, q) && At(old(maze.grid), q).kind == Floor && q !in draws ::
                At(maze.grid, q).kind == Floor
    {
      maze.Update(dt);
      ghost var counted := maze.grid;
      player.Update(snapped);
      if adaptRoll {
        AdaptedKeepsBorder(counted, draws, player.Position(), exitPos, WarningTime);
        AdaptedOutcome(counted, draws, player.Position(), exitPos, WarningTime);
        var adapted := maze.AdaptToPlayer(player.Position(), exitPos, draws, estimate);
      }
    }

    /**
     * One frame of `update(dt)`: the maze counts down, the player's slide advances, the
     * maze may adapt (`adaptRoll` is the 0.5% draw), the enemies chase the player, the
     * items under the player are taken, and standing on the exit wins. The enemy collision
     * test has no effect (see README).
     */
    method Update(dt: int, snapped: bool, adaptRoll: bool, draws: seq<Pos>, spawns: seq<Item>,
                  estimate: (Pos, Pos) -> real)
      requires Valid()
      requires |draws| == AdaptAttempts
      requires forall c | c in draws :: 1 <= c.x <= GridSize - 2 && 1 <= c.y <= GridSize - 2
      requires CountOn(items, player.Position()) <= |spawns|
      requires var counted := Countdown(maze.grid, dt);
               var advanced := if adaptRoll then Adapted(counted, draws, player.Position(), exitPos, WarningTime).1
                               else counted;
               forall s | s in spawns ::
                 && 1 <= s.x <= GridSize - 2 && 1 <= s.y <= GridSize - 2
                 && At(advanced, Pos(s.x, s.y)).kind == Floor
      modifies this, maze, player, enemies
      ensures Valid()
      ensures var p := old(player.Position());
              var counted := Countdown(old(maze.grid), dt);
              maze.grid == if adaptRoll then Adapted(counted, draws, p, exitPos, WarningTime).1 else counted
      ensures player.Position() == old(player.Position())
      ensures player.isMoving == (old(player.isMoving) && !snapped)
      ensures player.moveTimer == old(player.moveTimer)
      ensures enemies == old(enemies)
      ensures forall i | 0 <= i < |enemies| ::
                Pursued(maze.grid, old(enemies[i].State()), enemies[i].State(), dt, player.Position(), EnemyMoveInterval)
      ensures items == Remaining(old(items), player.Position()) + spawns[..CountOn(old(items), player.Position())]
      ensures player.health == HealthAfter(old(player.health), old(items), player.Position())
      ensures player.score == ScoreAfter(old(player.score), old(items), player.Position())
      ensures isRunning == (old(isRunning) && player.Position() != exitPos)
      ensures level == old(level) + (if player.Position() == exitPos then 1 else 0)
    {
      AdvanceMaze(dt, snapped, adaptRoll, draws, estimate);
      assert player.Position() == old(player.Position()) && items == old(items) && enemies == old(enemies);
      assert player.health == old(player.health) && player.score == old(player.score);
      assert forall s | s in spawns :: At(maze.grid, Pos(s.x, s.y)).kind == Floor;
      label Chase:
      ResolveEntities(dt, spawns, estimate);
      assert forall i | 0 <= i < |enemies| :: old@Chase(enemies[i].State()) == old(enemies[i].State());
    }

    /**
     * The rest of `update(dt)` once the maze has changed: the enemies chase the player, the
     * items under the player are taken, and standing on the exit wins.
     */
    method ResolveEntities(dt: int, spawns: seq<Item>, estimate: (Pos, Pos) -> real)
      requires Valid()
      requires CountOn(items, player.Position()) <= |spawns|
      requires forall s | s in spawns ::
                 Interior(maze.grid, Pos(s.x, s.y)) && At(maze.grid, Pos(s.x, s.y)).kind == Floor
      modifies this, player, enemies
      ensures Valid()
      ensures player.Position() == old(player.Position()) && player.isMoving == old(player.isMoving)
      ensures player.moveTimer == old(player.moveTimer)
      ensures enemies == old(enemies)
      ensures forall i | 0 <= i < |enemies| ::
                Pursued(maze.grid, old(enemies[i].State()), enemies[i].State(), dt, player.Position(), EnemyMoveInterval)
      ensures items == Remaining(old(items), player.Position()) + spawns[..CountOn(old(items), player.Position())]
      ensures player.health == HealthAfter(old(player.health), old(items), player.Position())
      ensures player.score == ScoreAfter(old(player.score), old(items), player.Position())
      ensures isRunning == (old(isRunning) && player.Position() != exitPos)
      ensures level == old(level) + (if player.Position() == exitPos then 1 else 0)
    {
      ghost var p, items0, health0, score0 := player.Position(), items, player.health, player.score;
      label Enemies:
      MoveEnemies(dt, estimate);
      assert forall i | 0 <= i < |enemies| :: old@Enemies(enemies[i].State()) == old(enemies[i].State());
      assert player.Position() == p && items == items0 && player.health == health0 && player.score == score0;
      CollectItems(spawns);
      CheckExit();
    }
  }
}
