# Maze game — a verified Dafny model

This project models the game logic of a browser maze game, found in
`script.js`. The game carves a perfect maze into a grid of `cols` by `rows`
cells, using randomized depth-first search with a backtracking stack. The
player walks from the top-left cell (0, 0) to the finish in the bottom-right
cell with the keys w, a, s and d. Reaching the finish starts the next level
with a new maze, up to level 100. At level 100 the finish wins the game. The
restart button goes back to level 1.

The page keeps its state in global variables: `grid`, `stack`, `current`,
`player`, `level`, `cols` and `rows`. The model keeps this state as the fields
of one class, `MazeGame.Game`. Its methods change the state step by step, as
the page does:

- `GenerateMaze` builds the grid with two nested loops.
- `Step` is one tick of the carving timer. It marks the current cell visited,
  asks `CheckNeighbors` for an unvisited neighbour, then carves
  (`RemoveWalls`), backtracks or stops.
- `MazeLoop` runs the ticks until the carving stops.
- `MovePlayer` moves the player, advances the level and regenerates the maze.

The cell objects become `Cell` records stored in row-major order in
`grid: seq<Cell>`. The stack and the current cell hold indices into that
sequence. The random numbers are passed in as a stream `random: nat -> real`
with values in [0, 1). Tick `t` of the carving loop receives `random(t)`, and
`CheckNeighbors` picks the candidate at `floor(draw * count)`, computed
exactly on reals (see "## Left out" for the page's rounding).

The modules are:

- `Grid` (grid.dfy): cells, directions, the index function and neighbours.
- `Carving` (carving.dfy): the carving process stated on grid values. It holds
  the invariant kept by every tick and the proof that a finished run leaves a
  perfect maze. Such a maze has every cell visited, `cols*rows - 1` passages,
  every cell connected to cell 0 through passages, paired wall flags, and an
  intact outer boundary.
- `Moves` (moves.dfy): one move attempt as a function, walks made of several
  attempts, and the proof that every cell of a finished maze is the end of a
  walk of move attempts from (0, 0) in that maze. A walk ignores the level
  change on the finish, so only for the finish itself is this the same as
  reaching it by key presses.
- `MazeGame` (game.dfy): the game class and its operations.

## Model

| member | source | states |
|---|---|---|
| `Grid.Index` | script.js:70-73 | The result is -1 exactly when (i, j) is off the grid. Otherwise it lies in [0, cols*rows) and decodes back to (i, j), so it is i + j*cols. |
| `Grid.IndexInjective` | script.js:70-73 | Two in-bounds pairs with the same index are the same pair. |
| `Grid.Neighbor` | script.js:34-37 | The lookup of the top, right, bottom or left cell gives -1 exactly when the step leaves the grid. Otherwise it gives the cell whose coordinates are one step away, which is a different cell. |
| `Grid.NeighborBack` | script.js:34-37 | The neighbour of a neighbour in the opposite direction is the cell itself. |
| `Grid.AdjacentIsNeighbor` | script.js:34-37 | A cell is 4-adjacent to another exactly when it is that cell's neighbour in some direction. The way back is then the opposite direction. |
| `MazeGame.BuildCells` | script.js:84-89 | The nested loops build cols*rows cells. The cell at index i + j*cols is a new cell at (i, j), with all four walls up, not visited and not the finish (the constructor at lines 26-30). |
| `MazeGame.Game.GenerateMaze` | script.js:75-98 | The generated maze has the requested size and is finished: every cell visited, cols*rows - 1 passages, all cells connected, walls paired, border intact. The stack is empty, the player is at (0, 0), the level is unchanged, and the finish can be reached from (0, 0) by legal moves. |
| `Carving.InitialState` | script.js:90-95 | A freshly built grid, with cell 0 current and nothing stacked, satisfies the carving invariant. |
| `MazeGame.CandidatesSpec` | script.js:33-42 | The neighbours gathered in the order top, right, bottom, left are exactly the adjacent unvisited cells. Each is listed once, and there are none exactly when every neighbour is visited. |
| `MazeGame.Pick` | script.js:44-45 | floor(draw * n) for a draw in [0, 1) is a valid position in a list of n > 0 entries. |
| `MazeGame.ChooseSpec` | script.js:32-48 | The choice is absent exactly when every neighbour is visited. Otherwise it is an adjacent unvisited cell. |
| `MazeGame.Game.CheckNeighbors` | script.js:32-48 | Returns the candidate the draw selects. That is an adjacent unvisited cell, or nothing exactly when every neighbour is visited. Nothing in the state changes. |
| `MazeGame.Game.RemoveWalls` | script.js:100-119 | For adjacent cells the result is exactly the grid with the facing wall pair cleared. No other cell changes, and the layout stays well-formed. |
| `Carving.CarvedSlot` | script.js:100-119 | Clearing the pair between a and b lowers a's wall facing b and b's wall facing a, and no other wall flag of any cell. |
| `Carving.CarvedLinks` | script.js:100-119 | After the clearing, a passage joins x and y exactly when one did before or {x, y} is {a, b}. |
| `Carving.CarvedConsistent` | script.js:100-119 | Clearing a pair keeps every cell's wall equal to its neighbour's facing wall. |
| `Carving.CarvedBorder` | script.js:100-119 | Clearing a pair between two grid cells never opens a wall on the outer boundary. |
| `Carving.CarvedPassages` | script.js:100-119 | Clearing a closed pair adds exactly one passage to the set of passages. |
| `Carving.MarkKeeps` | script.js:123 | Marking the current cell visited keeps the carving invariant and changes neither the reached cells nor the measure. |
| `Carving.CarveStep` | script.js:126-129 | Pushing the current cell, clearing the pair to an unvisited neighbour and moving there keeps the invariant. The invariant covers stacked cells being visited and distinct, paired walls, intact border, passages = reached cells - 1, and a walk from cell 0 to each reached cell. The measure drops. |
| `Carving.BacktrackStep` | script.js:130-131 | Popping the stack into the current cell when no neighbour is unvisited keeps the invariant, and the measure drops. |
| `Carving.FinishedAllVisited` | script.js:130-134 | When the current cell has no unvisited neighbour and the stack is empty, every cell of the grid is visited. |
| `Carving.FinishStep` | script.js:132-136 | Stopping leaves a perfect maze: every cell visited, exactly cols*rows - 1 passages, every cell reachable from cell 0 through passages, walls paired and border intact. |
| `MazeGame.Game.Advance` | script.js:126-129 | The carve branch: the stack gains the old current cell, the grid is the old grid with the pair cleared, the neighbour becomes current, the invariant is kept and the measure drops. |
| `MazeGame.Game.Retreat` | script.js:130-131 | The backtrack branch: the top of the stack is popped into the current cell, the invariant is kept and the measure drops. |
| `MazeGame.Game.Step` | script.js:122-136 | A tick does exactly one of three things to the marked grid: carve, backtrack, or stop. It stops only with an empty stack and no unvisited neighbour. Each tick keeps the invariant, every non-final tick lowers the measure, and a stop leaves a finished maze. |
| `MazeGame.Game.MazeLoop` | script.js:121-139 | The carving loop terminates, and it ends with a finished maze and an empty stack. |
| `Moves.Stepped` | script.js:176-189 | One move attempt from an on-grid position never leaves the grid. |
| `Moves.MoveCrossesPassage` | script.js:186-189 | A move that changes the position goes exactly one step in the pressed direction, through an open wall of the player's cell. |
| `Moves.StepAlongPassage` | script.js:186-189 | Every passage can be followed by a move in its direction. |
| `Moves.MoveReversible` | script.js:186-189 | With paired walls, a successful move followed by the opposite move returns to the start. |
| `Moves.Walk` | script.js:171-189 | Any sequence of move attempts keeps the player on the grid. |
| `Moves.WalkFollowsPath` | script.js:186-189 | Walking the directions of a chain of passages from its first cell ends at its last cell. |
| `Moves.CornerCells` | script.js:94-95 | Cell 0 is at (0, 0), and the last cell, the finish, is at (cols-1, rows-1). |
| `Moves.CellReachableByMoves` | script.js:186-189 | A cell connected to cell 0 by passages is the end of a walk of move attempts from (0, 0) in the same maze (`Walk`, which ignores the level change on the finish). |
| `Moves.ReachableByMoves` | script.js:194 | In a finished maze every cell is the end of a walk of move attempts from (0, 0) in that maze (`Walk` ignores the level change on the finish). In particular the finish (cols-1, rows-1) can be reached by key presses, since the first arrival there is the level event. |
| `MazeGame.Game.MovePlayer` | script.js:171-205 | Off-grid target: nothing changes. Otherwise the player ends where the move attempt leads. On the finish at level 100 the game is won with nothing else changed. On the finish below level 100 the level rises by exactly one and a new maze starts with the player at (0, 0). The game state stays valid: finished maze, player on the grid, level in 1..100. |
| `MazeGame.Game.constructor` | script.js:6-12 | The game starts at level 1 with a finished maze and the player at (0, 0). |
| `MazeGame.Game.ResetLevel` | script.js:264 | The level becomes 1. |
| `MazeGame.Game.Restart` | script.js:263-269 | The level is back to 1 and a new finished maze of the same size starts with the player at (0, 0). |

## Left out

- Drawing is not modelled: the canvas, `cellSize`, `show`, `drawLine`, `drawMaze`, `drawPlayer` and `drawFinish`. They only render the state.
- Window resizing is not modelled. `cols` and `rows` come from pixel sizes divided by 20, so the model takes them as parameters. `GenerateMaze` requires at least 1 of each. With 0 columns or rows the page would fail at line 95, where it sets the finish on a cell that does not exist.
- Timers are not modelled. The `setInterval` that drives the carving becomes a synchronous loop, and the 300 ms delay before the win effect is dropped. The page can also start a second carving timer while one is running, and it accepts key presses during carving. Those interleavings are not modelled: in the model a maze is always finished before the player moves.
- `Math.random` is not modelled. Draws come from the `random` stream, and tick `t` receives `random(t)` whether or not it needs a draw. The confetti's own random numbers are not modelled.
- `MazeGame.Pick`: draws are reals and `draw * count` is exact, while the page multiplies doubles. For a few draws just below a multiple of 1/count, the page's product rounds up to the next integer and picks the next candidate. For example, with 3 candidates the draw 0.6666666666666666 selects candidate 2 on the page and candidate 1 in the model. No proved property depends on which candidate is picked.
- The win sound and the confetti animation are not modelled. `MovePlayer` reports a win as its result `won`.
- The key handler that maps w, a, s, d to `movePlayer` is not modelled. `MazeGame.Game.MovePlayer` takes one of the four directions, and its offsets `DX`/`DY` are the ones the handler passes: w (0, -1), a (-1, 0), s (0, 1), d (1, 0). Other offsets are never passed to `movePlayer`.
- `movePlayer` returns early when the player's cell or the target cell does not exist. The model does not include these checks. The player is always on the grid, and the target is on the grid after the bounds check, so these checks never fire.
- `MazeGame.Game.Restart` models the restart handler as resetting the level and generating a new maze. The handler's line 266 removes a canvas through the name `confettiCanvas`, which script.js declares only inside `startConfetti`. Whether that name resolves depends on the page's HTML, which is not part of this model. If it does not resolve, the handler stops after resetting the level and showing "Level: 1", and no new maze is generated. `MazeGame.Game.ResetLevel` is that part on its own. Cancelling the confetti animation and the level label are not modelled.
- At level 100 the model follows the code: every later key press whose target is on the grid, while the player stands on the finish, reports the win again.
- The cell objects are modelled as records in a sequence indexed by position, and the stack holds indices. The page never shares a cell between two positions, so no aliasing is lost.
