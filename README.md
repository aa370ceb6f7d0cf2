# Snake autoplay engine, modelled in Dafny

This project models the engine of the autoplay Snake game in `index.js`. That is everything in the file except drawing, the DOM and timer scheduling. The model has three parts:

- **Grid** (`grid.dfy`): board cells in pixels and the in-bounds test. It also has the four-way neighbour list of `getNeighbors` (right, left, down, up) and the Manhattan `heuristic`, which works in pixels. A lattice is the set of board cells a whole number of units from a given cell; it bounds the search.
- **Pathfinder** (`pathfinder.dfy`): `findPath` as a method over sequences and maps. The open list, closed list, `cameFrom`, `gScore` and `fScore` are local variables. The lowest-f `reduce`, the neighbour `forEach` and its callback, and `reconstructPath` are separate methods. The snake body and the board size are parameters. The search is proved to:
  - return a legal, repeat-free route from the head to the food exactly when such a route exists;
  - return the empty sequence otherwise;
  - stop within (board cells + 1) iterations, that is (width/25)·(height/25) + 1 for a head on the 25-pixel grid.

  The two quirks of the code are kept:
  - the lowest-f selection keeps the *later* open cell on a tie;
  - the heuristic is in pixels while `g` counts steps, so it overestimates. The model proves only that the route is valid, not that it is shortest.
- **SnakeGame** (`game.dfy`): a `Game` class. Its fields are the page's module-level variables: `snake`, food, velocity, `score`, `highScore`, `sessionScores`, `running` and `paused`, plus two booleans for the armed timers. Its methods are `gameStart`, `createFood`, `moveSnake`, `updateHighScore`, `checkGameOver`, the state part of `displayGameOver`, `nextTick`, `togglePause`, the score push of `updateAvgScore`, and `resetGame`. The constructor establishes an object invariant `Valid()`. It is required and kept by the page's handler and timer callbacks (`Tick`, `TogglePause`, `ResetGame`) and by the steps that start from a whole state (`MoveSnake`, `Steer`, `Advance`, `CheckGameOver`, `DisplayGameOver`, `UpdateAvgScore`, `TogglePauseTwice`). `GameStart`, `CreateFood` and `UpdateHighScore` run in the middle of other operations and do not assume it. `Valid()` says:
  - the length is 5 + score;
  - the body is a chain of unit steps;
  - the velocity is one unit step;
  - the high score bounds every score;
  - the food is a board cell that `randomFood` can produce, off the snake.

  `Tick` also proves that the autopilot survives every tick on which the food is reachable.

Three behaviours of `index.js` that decide which route comes back are kept as written:

- `getNeighbors` lists the moves right, left, down, up, and new cells are pushed onto the open list in that order.
- The `reduce` at index.js:245-247 breaks f ties in favour of the *last* open cell, not the first inserted.
- The heuristic is not admissible for the step cost, because it is in pixels. `Grid.HeuristicOverestimatesOneStep` shows this.

Randomness is a parameter. `createFood` takes its samples in order from a sequence `draws` of cells that stands for the values of `randomFood`. Each sample is a cell `randomFood` can return: both coordinates are multiples of 25, from 0 to the side minus 25 (index.js:113-122). Which of those cells comes up is left free. The board size is the pair of constants `width` and `height`.

## Model

| member | source | states |
|---|---|---|
| `Grid.Candidates` | index.js:287-292 | the four candidate moves are exactly the cells one unit away on one axis |
| `Grid.KeepInBounds` | index.js:294-298 | the filter keeps exactly the in-bounds candidates, in their original order, and never adds one; a list without repeats stays without repeats |
| `Grid.Neighbors` | index.js:285-301 | the neighbour list holds at most four cells, each once: exactly the in-bounds cells one unit away on one axis, in the order right, left, down, up |
| `Grid.Heuristic` | index.js:303-305 | the estimate is a non-negative pixel distance that is zero exactly at the goal |
| `Grid.WalkBoundsHeuristic` | index.js:303-305 | a walk of n unit steps spans at most 25·n in the estimate, so the estimate is in pixels while the cost counts steps |
| `Grid.HeuristicOverestimatesOneStep` | index.js:303-305 | one step, costing 1 in `g`, is estimated at 25 |
| `Grid.LatticeClosed` | index.js:287-298 | a move from the start, or from a lattice cell, to an in-bounds cell stays on the start's lattice |
| `Grid.AlignedLatticeIsBoard` | index.js:10-17 | for a start on the 25-pixel grid, the start's lattice is the set of the board's cells |
| `Grid.BoardCellCount` | index.js:10-17 | a board whose sides are whole numbers of 25-pixel cells has (width/25)·(height/25) cells |
| `Grid.AlignedLatticeSize` | index.js:10-17 | for a grid-aligned start on such a board, the start's lattice has (width/25)·(height/25) cells |
| `Pathfinder.LowestF` | index.js:244-247 | the chosen open cell has the lowest f, and every later cell has a strictly higher f, so a tie keeps the later cell |
| `Pathfinder.ReconstructPath` | index.js:307-314 | the chain ends at the given cell and starts at a cell with no predecessor; each cell's predecessor is the cell before it, and g rises by one per cell |
| `Pathfinder.ConsiderNeighbor` | index.js:262-279 | a closed or snake neighbour changes nothing; a neighbour not yet open is appended to the end of open; an open neighbour whose cost is no higher than the current cell's plus one keeps its cost and predecessor (ties included); otherwise the neighbour, and only it, gets the current cell as predecessor, g+1 and f = g + heuristic; the search invariant is kept |
| `Pathfinder.ExpandNeighbors` | index.js:258-279 | the new open list is the old one followed by the fresh neighbours in getNeighbors' order; the maps are the callback folded over the neighbours in order: exactly the neighbours the current cell improves join each map's keys and get the current cell as predecessor, g+1 and f = g + heuristic, and every other entry of cameFrom, g and f is unchanged; every legal move out of the closed cell lands in open or closed; the search invariant is kept |
| `Pathfinder.VisitNeighbor` | index.js:262-279 | one turn of the `forEach` carries the loop's account from the neighbours handled so far to one more: open is the old open plus the fresh cells of the longer prefix, the maps are the callback folded over it, every unblocked cell handled is open or closed, and the search invariant is kept |
| `Pathfinder.CallbackStep` | index.js:262-279 | on a list without repeats, one more callback, as `ConsiderNeighbor` states it, extends the pushes, the folded maps and the coverage from a prefix to the prefix one cell longer |
| `Pathfinder.RelaxElsewhere` | index.js:272-278 | a cell that no call so far improves keeps its presence and its value in cameFrom, g and f |
| `Pathfinder.RelaxGrows` | index.js:262-279 | for a cell not handled before, the callback judged against the maps so far updates them exactly as the fold judged against the maps before the `forEach` does: the earlier calls touch neither that cell nor the current cell's cost |
| `Pathfinder.RelaxAddsImproved` | index.js:272-278 | after the calls on a prefix, each map's keys are its old keys plus the improved cells of the prefix |
| `Pathfinder.RelaxRewritesImproved` | index.js:272-278 | after the calls on a prefix, each improved cell has the current cell as predecessor, g+1 and f = g + heuristic, and every other entry keeps its old value |
| `Pathfinder.RelaxedMaps` | index.js:258-279 | the maps after the whole `forEach` differ from the old ones exactly at the improved neighbours, which get the current cell, g+1 and f = g + heuristic |
| `Pathfinder.CoveredGrows` | index.js:262-271 | once a handled cell that is not a snake cell is open or closed, every unblocked cell of the longer prefix is open or closed |
| `Pathfinder.Fresh` | index.js:262-271 | the cells the callback pushes are exactly the listed cells that are neither open, closed nor snake cells |
| `Pathfinder.FreshGrows` | index.js:262-271 | for a cell not listed earlier, the callback appends it exactly when it is fresh, so the pushes so far are the fresh cells of the prefix handled, in order |
| `Pathfinder.AdmitPreservesInv` | index.js:268-278 | admitting an unclosed, unoccupied neighbour that is new, or strictly cheaper through the current cell, keeps the search invariant: it is pushed if new, gets the current cell as predecessor, and is scored g+1 and f = g + heuristic |
| `Pathfinder.PushPreservesInv` | index.js:270-271 | pushing a new, unclosed grid cell keeps open free of repeats and of closed cells |
| `Pathfinder.RecordPreservesInv` | index.js:276-278 | recording the closed current cell as predecessor of an open neighbour, at g+1, keeps every predecessor closed, one legal move back and one step cheaper |
| `Pathfinder.RemoveAtFacts` | index.js:255 | the splice removes exactly the chosen cell and keeps open free of repeats |
| `Pathfinder.CloseKeepsInv` | index.js:254-256 | moving the chosen non-goal cell from open to closed keeps the search invariant, with the start now closed |
| `Pathfinder.ExpandKeepsSaturated` | index.js:256-279 | once a closed cell's neighbours are expanded, every legal move out of every closed cell lands in open or closed |
| `Pathfinder.ReconstructedIsRoute` | index.js:249-252 | the path rebuilt at the goal is a legal, repeat-free route from the start, and is just the start when start and goal coincide |
| `Pathfinder.RouteStaysInside` | index.js:243-282 | a route that starts in a region no legal move leaves stays in that region |
| `Pathfinder.NoRouteOutOfClosedRegion` | index.js:243-282 | when open runs dry, the closed cells hold the start, miss the goal and no legal move leaves them, so no route to the goal exists |
| `Pathfinder.FindPath` | index.js:231-283 | a non-empty result is a legal, repeat-free route from start to goal (every later cell in bounds, off the snake, one unit from its predecessor); the result is non-empty iff such a route exists; start = goal gives [start]; iterations ≤ lattice cells + 1, which is (width/25)·(height/25) + 1 for a grid-aligned start on a board of whole cells |
| `SnakeGame.InitialSnake` | index.js:43-49 | the starting body is five distinct cells along the top row, in a chain of unit steps, with the head at (100, 0) and the tail at (0, 0) |
| `SnakeGame.InitialSnakeIsSafe` | index.js:43-49 | on a board wider than 100 pixels the starting body has not collided |
| `SnakeGame.AdvanceKeepsContiguous` | index.js:151-161 | pushing an adjacent head keeps the body a chain of unit steps, with or without the tail |
| `SnakeGame.RouteStepIsSafe` | index.js:139-151 | a route from the head to food that is off the body has a first step, and that step is on the board and off the body |
| `SnakeGame.HeadOffBodyIsSafe` | index.js:179-198 | a head pushed onto a board cell that the body does not occupy has not collided, whether or not the tail then drops |
| `SnakeGame.FirstFreeIndex` | index.js:120-126 | the first sample off the snake: every earlier sample is on the snake |
| `SnakeGame.FoodCellsAreBoardCells` | index.js:112-122 | a cell both of whose coordinates `randomFood` can return is on the board; on a board of whole 25-pixel cells these are exactly the board's cells |
| `SnakeGame.Game.constructor` | index.js:18-71 | page load sets the initial values and then runs gameStart: five-cell line, velocity (25, 0), score 0, stored high score, running with food off the snake |
| `SnakeGame.Game.GameStart` | index.js:75-82 | running and not paused, tick timer armed, food is the first sample off the snake |
| `SnakeGame.Game.CreateFood` | index.js:118-126 | when the sampling loop exits, the food is the first sample that is not a snake segment |
| `SnakeGame.Game.MoveSnake` | index.js:138-163 | velocity is route[1] − head when the route has two or more cells, else unchanged; new head = old head + velocity; eating grows the snake by one and raises the score by one, else the tail drops; high score = max(old high score, score); following a found route never collides |
| `SnakeGame.Game.Steer` | index.js:139-149 | the route is legal and non-empty iff the food is reachable; a found route has a first step onto a free board cell, and the velocity becomes that step; otherwise the velocity is kept; the object invariant holds |
| `SnakeGame.Game.Advance` | index.js:151-162 | the head moves one velocity step; eating grows the snake by one, raises the score by one and draws new food, else the tail drops and score and food stay; high score = max(old high score, score); a head on a free board cell has not collided; the object invariant holds |
| `SnakeGame.Game.UpdateHighScore` | index.js:318-324 | the high score becomes max(old high score, score) |
| `SnakeGame.Game.CheckGameOver` | index.js:179-199 | running is cleared iff the head is off [0,width)×[0,height) or equals a segment at index ≥ 1; it is never set |
| `SnakeGame.Game.DisplayGameOver` | index.js:201-211 | running is false, and the restart timer is armed when autoplay is ticked |
| `SnakeGame.Game.Tick` | index.js:84-97 | running and unpaused: the move has everything moveSnake promises (route, velocity, new head, grow or drop, score, food, high score), then running = no collision; paused: nothing changes; stopped: the tick timer is disarmed and game over follows; running is never set; the snake survives whenever the food was reachable |
| `SnakeGame.Game.TogglePause` | index.js:345-352 | paused flips, and the tick timer is armed exactly when not paused |
| `SnakeGame.Game.TogglePauseTwice` | index.js:345-352 | toggling twice restores paused, and restores the timer whenever it matched the flag before |
| `SnakeGame.Game.UpdateAvgScore` | index.js:327-328 | the finished life's score is appended to the session's scores |
| `SnakeGame.Game.ResetGame` | index.js:213-229 | the old score is pushed to the session's scores; score 0, velocity (25, 0), the five-cell line, running, food off the snake; the high score carries over |

## Left out

- Drawing: `drawCheckeredBoard`, `clearBoard`, `drawFood`, `drawSnake` and the text of `displayGameOver` only paint the canvas.
- The DOM: element lookups, key listeners, the empty `changeDirection`, the replay button's page reload and every `textContent` update are user-interface wiring.
- Timers: `setInterval`/`clearInterval`/`setTimeout` are two booleans, `ticking` and `restartPending`. Timing, the tick rate `gameSpeed`, the speed slider listener and overlapping intervals are not modelled.
- `sessionStorage`: the stored high score is taken as a number. The string it really holds, the coercion in the comparison at index.js:319 and the write at index.js:321 are not modelled.
- `randomFood` and `Math.random`: the samples are the parameter `draws`. Every sample is a cell `randomFood` can return; which of them comes up, and how often, is not modelled, because it depends on `Math.random`. The sampling loop ends only with probability one, so its end is stated as a precondition.
- SnakeGame.Game.CreateFood: requires that some sample in `draws` is off the snake. This stands for the loop's almost-sure termination; the code makes no such promise.
- Pathfinder.FindPath: does not claim the route is shortest. The pixel heuristic overestimates, so the search need not find a shortest route.
- Pathfinder.FindPath: states the (width/25)·(height/25) + 1 iteration bound only for a start on the 25-pixel grid of a board whose sides are multiples of 25 pixels. Otherwise the bound is the lattice through the start, plus one.
- The average score: the division in `updateAvgScore` and `roundIfDecimal` are floating point.
- `console.log` calls are output only.
