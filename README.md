# Adaptive maze: a Dafny model of the grid rules of NeuroMaze and SketchLogic

The repository holds two builds of one browser game. `index.js` is "NeuroMaze" and
`script.js` is "SketchLogic". In both, a player walks a 15-by-15 tile grid from (1,1) to
the exit at (13,13). Enemies chase the player by A* search, and items heal or score.
Now and then the maze "adapts": it picks a floor tile near the player and turns it into a
warning tile. The warning tile becomes a wall once its timer runs out. The maze only does
this when, with that tile walled, the player can still reach the exit.

This project models the logic of both builds and proves what it does:

- `Grid` holds the tiles (`Wall`, `Floor`, `Warning` with a timer), positions, walks and
  connectivity.
- `AStar` is the `findPath` search, which both builds share. It is proved sound (a
  returned path is a walk over non-wall tiles from start to end) and complete (the empty
  result means no such walk exists). It is also proved to terminate.
- `MazeRules` gives specification functions for what `generate`, `update(dt)` and one
  adaptation do. Lemmas about them cover the adaptation outcome, the route it keeps and
  the border it never touches.
- `MazeRules` also proves two counterexamples. Nothing in the code guarantees a route
  from start to exit: `generate` can box in the start, and a warning tile hardening can
  cut the only route.
- `Items` is the backward pickup scan, shared by both builds. It covers the health cap,
  the score bonus and optional replacement items.
- `Pursuit` is the enemy's timed step toward the player.
- `NeuroMaze` (index.js) and `SketchLogic` (script.js) model each build's classes.
  - Fields the source updates in place are class fields that methods change.
  - Grid writes are modelled as the cell-replacing functions `WithKind` and `WithTimer`.
  - Each method is proved against the specification functions above.

Randomness becomes parameters:

- the wall draws of `generate` (`isWall`);
- the five cells an adaptation tries (`draws`);
- whether a frame adapts (`adaptRoll`);
- the enemy and item spawn cells.

The frame time `dt` is integer milliseconds. The straight-line distance test of the
adapter is the exact integer test `4 < dx² + dy² < 36`. The A* heuristic is a parameter
`estimate`.

## Model

| member | source | states |
|---|---|---|
| Grid.WithKind | index.js:175 | setting one tile's type changes that tile's type and no other tile |
| Grid.WithTimer | index.js:181 | setting one tile's warning timer changes that timer and no other tile |
| Grid.Neighbor | index.js:130-135 | each of the four offsets the search tries leads to an adjacent cell |
| AStar.Without | index.js:127 | removing the chosen cell from the open list keeps exactly the other cells and never lengthens it |
| AStar.LowestScore | index.js:116 | the `reduce` picks a cell of lowest f-score, and on a tie the last one |
| AStar.TracePath | index.js:118-125 | following parent links back from the end yields a walk from start to end over non-wall cells, `[start]` when they coincide |
| AStar.Relax | index.js:135-154 | one neighbour pass keeps the search bookkeeping, never drops an open cell, and leaves a passable neighbour open or closed |
| AStar.CloseCell | index.js:127-128 | moving the chosen cell from the open list to the closed set keeps the bookkeeping |
| AStar.Expand | index.js:130-155 | after the four neighbour passes every passable neighbour of every closed cell is open or closed |
| AStar.FindPath | index.js:101-158 | the result is `[]` exactly when no walk exists, otherwise a walk from start to end in unit steps over in-bounds non-wall cells; `[start]` when start is end; the loop terminates and the grid is not changed |
| MazeRules.Generated | index.js:75-98 | the grid is size×size; border cells are walls, except (1,1) and (size-2,size-2), which are floor; interior cells follow their draw; every timer is 0 (the source gives border cells no timer, and none is read) |
| MazeRules.GeneratedMayBeUnsolvable | index.js:374-375 | a generated grid can have no route from (1,1) to the exit |
| MazeRules.Tick | index.js:194-200 | one cell's countdown: a non-warning tile is left as it was; a warning tile's timer drops by dt and the tile is a wall exactly when the timer is ≤ 0, otherwise still a warning tile |
| MazeRules.Countdown | index.js:190-204 | every warning timer drops by dt; the tile is a wall exactly when its timer is ≤ 0; non-warning tiles are unchanged; no tile opens; a walled border stays walled |
| MazeRules.CountdownMayDisconnect | script.js:145-154 | hardening a warning tile can cut the only route between two cells |
| MazeRules.Eligible | index.js:171-173 | a drawn cell that passes the adapter's floor-and-distance test (squared distance strictly between 4 and 36) is an in-bounds floor tile, and never the player's cell or a cell next to it |
| MazeRules.Adapted | index.js:165-187 | the outcome of the five-attempt loop: the grid keeps its size, and when no attempt succeeds it is left exactly as it was |
| MazeRules.AdaptedFirst | index.js:165-186 | the attempts are tried in draw order: a successful adaptation warns the first accepted draw, and every earlier draw was rejected |
| MazeRules.AdaptedOutcome | index.js:160-188 | an adaptation succeeds exactly when some draw is accepted; failure leaves the grid unchanged; success turns one accepted cell into a warning tile with the given timer and changes nothing else |
| MazeRules.RejectedCellUntouched | index.js:173-183 | a drawn cell that is not floor, is out of distance range, or would cut the player off keeps its contents |
| MazeRules.AdaptedKeepsRoute | index.js:175-182 | after a successful adaptation the player still reaches the exit |
| MazeRules.AdaptedKeepsBorder | index.js:167-168 | adaptation draws only interior cells, so a walled border stays walled |
| Items.Remaining | index.js:485-500 | splicing out the items on the player's cell keeps exactly the other items and removes one entry per taken item |
| Items.HealthAfter | index.js:485-489 | the scan's effect on health: with no health item on the player's cell health is unchanged, and with one or more it ends at most 100 |
| Items.ScoreAfter | index.js:490-492 | the scan's effect on score: it never drops, and with no score item on the player's cell it is unchanged |
| Items.ScoreAfterCounts | index.js:491-492 | the scan adds 50 to the score for every score item on the player's cell |
| Items.HealthAfterCapped | index.js:488-489 | k health items on the player's cell give min(100, health + 20k), whatever their order |
| Items.HealthAfterBounds | index.js:489 | starting at or below 100, health after pickup never drops and never exceeds 100 |
| Items.Pickup | index.js:485-500 | the backward scan's list, health and score equal the specification; with replacements the list keeps its length; without them no item is left on the cell |
| Pursuit.Pursued | index.js:279-294 | one enemy frame: the timer grows by dt, or resets to 0 once it passes the interval; the enemy moves only on such a frame, and then onto the second cell of the path it just stored |
| Pursuit.ChaseStep | index.js:279-295 | an enemy moves only when its timer passes the interval, the player is reachable and it is not on the player's cell; it then takes one step to an adjacent non-wall cell |
| Pursuit.ChaseStaysInside | index.js:288-294 | an enemy inside a walled border stays inside it |
| NeuroMaze.Maze.constructor | index.js:68-73 | a new maze holds a generated grid |
| NeuroMaze.Maze.Generate | index.js:75-98 | the nested loops build exactly the generated grid |
| NeuroMaze.Maze.FindPath | index.js:101-158 | search on the maze's grid: a walk to the end, or empty exactly when none exists |
| NeuroMaze.Maze.AdaptToPlayer | index.js:160-188 | the trial-wall, revert and warn loop yields the adaptation's outcome and grid with a 2000 ms timer |
| NeuroMaze.Maze.Update | index.js:190-204 | the in-place timer loop yields the countdown grid |
| NeuroMaze.Player.constructor | index.js:209-219 | a new player stands on its cell with 100 health, score 0, not moving |
| NeuroMaze.Player.Move | index.js:221-236 | no change while moving or into a wall; otherwise one step, moving set, timer 0, score + 1; inside a walled border the player stays inside |
| NeuroMaze.Player.Update | index.js:238-257 | a move ends once the drawn position has snapped onto the cell |
| NeuroMaze.Enemy.constructor | index.js:261-269 | a new enemy has no path, timer 0 and a 600 ms interval |
| NeuroMaze.Enemy.Update | index.js:271-284 | one frame of the chase with the 600 ms interval |
| NeuroMaze.Enemy.CalculateMove | index.js:286-295 | the stored path is the search result, and the enemy moves to its second cell if there is one |
| NeuroMaze.FloorSpots | index.js:382-389 | the enemy spawn cells kept are exactly the drawn cells that are floor, in draw order |
| NeuroMaze.SpawnOnFloor | index.js:380-389 | one fresh, distinct enemy on each drawn floor cell, in draw order |
| NeuroMaze.Game.constructor | index.js:300-333 | a new game: a fresh maze holding a generated grid, a fresh player on (1,1) with 100 health, score 0, not moving and move timer 0, no enemies or items, level 1, not running |
| NeuroMaze.Game.HandleMove | index.js:343-345 | a key press moves the player only while the game runs, with the move rules above |
| NeuroMaze.Game.SpawnItem | index.js:400-408 | the item found by the retry loop is appended |
| NeuroMaze.Game.StartLevel | index.js:369-398 | new grid, player on (1,1), one enemy per drawn floor cell, the three new items, running |
| NeuroMaze.Game.ResetMaze | index.js:373-378 | the grid is regenerated, the solvability search leaves it as generated (its result is discarded), and the player is put back on (1,1) |
| NeuroMaze.Game.SpawnEnemies | index.js:380-389 | the enemy list is one fresh enemy per drawn floor cell, all inside the border |
| NeuroMaze.Game.SpawnItems | index.js:391-395 | the item list becomes the three spawned items |
| NeuroMaze.Game.GameOver | index.js:416-437 | the game stops; a win adds one level; a loss resets level 1, score 0, health 100 |
| NeuroMaze.Game.CollectItems | index.js:485-500 | the item list, health and score after pickup with replacements, keeping health ≤ 100 and score ≥ 0 |
| NeuroMaze.Game.CheckExit | index.js:502-505 | standing on the exit stops the game and adds one level; otherwise nothing changes |
| NeuroMaze.Game.MoveEnemies | index.js:464 | every enemy takes its chase step toward the player's cell, and all stay inside the border |
| NeuroMaze.Game.AdvanceMaze | index.js:452-461 | the grid is the countdown, adapted when the roll says so; the move flag follows the snap; a floor tile not drawn stays floor |
| NeuroMaze.Game.ResolveEntities | index.js:463-505 | the chase, the pickup and the exit check, in that order; the player's move timer is untouched |
| NeuroMaze.Game.Update | index.js:451-512 | one frame: countdown, slide, optional adaptation, chase, pickup with replacements drawn on floor cells of the adapted grid, exit check; the game invariant is kept; the player's move timer is untouched |
| SketchLogic.Maze.constructor | script.js:65-69 | a new maze holds a generated grid |
| SketchLogic.Maze.Generate | script.js:71-89 | the nested loops build exactly the generated grid |
| SketchLogic.Maze.FindPath | script.js:91-123 | search on the maze's grid: a walk to the end, or empty exactly when none exists |
| SketchLogic.Maze.Adapt | script.js:125-143 | the wall, then warn or revert loop yields the adaptation's outcome and grid with a 1500 ms timer |
| SketchLogic.Maze.Update | script.js:145-154 | the in-place timer loop yields the countdown grid |
| SketchLogic.Player.constructor | script.js:158-164 | a new player stands on its cell with 100 health, score 0, not moving |
| SketchLogic.Player.Move | script.js:166-174 | no change while moving or into a wall; otherwise one step, moving set, score + 1; inside a walled border the player stays inside |
| SketchLogic.Player.Update | script.js:176-186 | a move ends once the drawn position has snapped onto the cell |
| SketchLogic.StepEnemy | script.js:296-301 | one frame of one enemy record with the 700 ms interval |
| SketchLogic.Game.constructor | script.js:190-218 | a new game: a fresh maze holding a generated grid, a fresh player on (1,1) with 100 health, score 0, not moving, no enemies or items, level 1, not running |
| SketchLogic.Game.HandleMove | script.js:228 | a key press moves the player only while the game runs |
| SketchLogic.Game.StartLevel | script.js:245-269 | new grid, player on (1,1), 1 + level/2 enemies on the non-wall cells drawn, the three new items, running |
| SketchLogic.Game.ResetMaze | script.js:247-251 | the grid is regenerated, the solvability search leaves it as generated (its result is discarded), and the player is put back on (1,1) |
| SketchLogic.Game.SpawnEnemies | script.js:253-259 | one fresh enemy record per drawn cell, on a non-wall cell inside the border |
| SketchLogic.Game.SpawnItems | script.js:261-267 | the item list becomes the three spawned items |
| SketchLogic.Game.EndGame | script.js:335-342 | the game stops; a win adds one level; a loss resets level 1, score 0, health 100 |
| SketchLogic.Game.MoveEnemies | script.js:292-301 | every enemy record takes its chase step toward the player's cell, and all stay inside the border |
| SketchLogic.Game.CollectItems | script.js:314-327 | taken items are removed without replacement; health and score follow the pickup rules |
| SketchLogic.Game.CheckWin | script.js:330 | standing on (13,13) stops the game and adds one level; otherwise nothing changes |
| SketchLogic.Game.AdvanceMaze | script.js:280-289 | the move flag follows the snap; the grid is the countdown, adapted when the roll says so; a floor tile not drawn stays floor |
| SketchLogic.Game.Update | script.js:279-333 | one frame: slide, countdown, optional adaptation, chase, pickup without replacement, win check; the game invariant is kept |

## Where the code falls short of its own comments

The model follows the code in each case below.

- Solvability is not ensured. `startLevel` runs a search commented "Ensure solvable"
  (index.js:375) or "Ensure path" (script.js:249), but it discards the result and never
  changes the grid. `MazeRules.GeneratedMayBeUnsolvable` shows a generated grid with no
  route from (1,1) to the exit. No invariant of the model claims a route exists.
- The adapter's check does not protect the route for long. `adaptToPlayer` says it will
  "verify path still exists" (index.js:162), and it does so with the chosen tile walled.
  Warning tiles already on the grid can still harden later, though, and
  `MazeRules.CountdownMayDisconnect` shows that hardening one can cut the only route.
- The adapter does not look at which tiles the player uses. Its comment speaks of "floor
  tiles player uses often" (index.js:161), but the code tries five random interior cells
  whose straight-line distance from the player is strictly between 2 and 6. The
  `playerPath` argument is never read.

## Where the two builds differ

- A warning tile hardens after 2000 ms in `index.js` and after 1500 ms in `script.js`.
- Enemies step every 600 ms in `index.js` and every 700 ms in `script.js`.
- A frame adapts on a 0.5% roll in `index.js` and on a 0.3% roll in `script.js`.
- `index.js` counts the maze down before the player's slide; `script.js` does the reverse.
- `index.js` replaces each taken item, pushing it behind the backward scan, so the
  replacement is not taken in the same frame. `script.js` does not replace taken items.
- `index.js` draws one cell per enemy and places an enemy only when that cell is floor
  (index.js:382-389), so a level can start with fewer than 1 + level/2 enemies.
  `script.js` redraws until the cell is not a wall (script.js:254-258), so it always
  places exactly 1 + level/2.
- `index.js` reads a recorded g-score of 0 as "no score"; see `AStar.Relax` below.

## Left out

- `sw.js` is not part of this model. It is service-worker caching, which is network and
  cache I/O.
- Drawing, `resize`, particles, toasts and `setTimeout` are left out. So are key and
  touch binding beyond the forwarded move, the `requestAnimationFrame` loop and the
  computation of `dt` from timestamps. These are user-interface and timing plumbing.
- Visual interpolation (the 0.3 and 0.1 easing, the 0.01 snap) is floating-point drawing
  state. The boolean `snapped` stands for the snap test in `Player.update`.
- The enemy–player collision test has no effect and is not modelled.
  - It passes the player object, which has no `x`/`y` fields, so the distance is NaN and
    the damage branch never runs.
  - As a result, health only ever rises, through items.
  - `gameOver(false)` and `endGame(false)` are reached from no modelled frame, but they
    are modelled as operations.
- The `adaptability` tile field, the `wallsToSpawn` queue and the player's `moveQueue`
  are never read, so they are left out. So is the unused `playerPath` parameter of
  `adaptToPlayer`.
- `Math.random` is replaced by parameters.
  - The retry-until-floor loops (`spawnItem`, the enemy and item `do`/`while` loops of
    `script.js`) appear as the cell they settle on, with a `requires` that it passes the
    loop's test.
  - The loops themselves need not terminate, so their termination is not modelled.
- AStar.FindPath: the straight-line heuristic is the parameter `estimate`. Soundness,
  completeness and termination hold for any estimate. That the path found is a shortest
  one is not proved.
- AStar.TracePath builds the path front to back instead of pushing and reversing. Both
  give the same sequence.
- AStar.FindPath models the closed list as a set. The code only appends to it and tests
  membership by coordinates.
- In `index.js` the guard `tentativeG >= (gScore[n] || Infinity)` reads a stored 0 as "no
  score". In `script.js` the guard compares directly. Only the start cell scores 0, and
  it is closed before any comparison, so both builds take the same branch.
  `AStar.Relax` asserts this.
- NeuroMaze.Game.SpawnItem takes the cell found by the retry loop as its argument.
- `dt` is an integer number of milliseconds. In the source it is a difference of
  floating-point timestamps.
- Health, score and level are unbounded integers. In the source they are doubles, which
  are exact far beyond any reachable value.
- In both builds border cells carry no `warningTimer` (index.js:82, script.js:77). The
  model gives them 0, which is never read, because a border cell is never a warning tile.
- The `index.js` `Enemy` is a class whose fields are updated in place. The `script.js`
  enemies are plain records in the game's list, so they are modelled as a `seq` of values
  that the game reassigns element by element.
