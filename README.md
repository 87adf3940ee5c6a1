# maze-runner, modelled in Dafny

maze-runner is a two-player browser game. Each round, `init` carves a random maze on the
9 x 12 grid of cells with a randomised depth-first backtracker (`stepThroughCell`). It turns
every boundary left closed into a static wall, and it puts a goal in the middle of the last
column, player 1 (green) in the top-left cell and player 2 (blue) in the bottom-left cell. A
collision handler credits the first player whose body touches the goal. A per-round latch
(`canWin`) keeps that to at most one win. `win` then starts a new round after a pause.

This project models the game logic of `script.js` at the level of cells and boundaries. It
proves the properties the game depends on:

- The Fisher–Yates `shuffle` is a permutation, and the rearrangements it can produce are
  exactly all of them.
- The carve visits every cell. It opens a set of boundaries that forms a spanning tree of the
  grid graph: `rows * cols - 1` boundaries, every cell joined to every other, no cycle.
- The wall emission produces exactly one wall per closed in-grid boundary, plus the four
  borders, with no wall twice. On the 9 x 12 board that is 92 walls.
- Both players can reach the goal through open boundaries.
- The win latch only ever closes, and a round hands out at most one win, whatever collisions
  follow.

Modules, following the structure of `script.js`:

- `Shuffle`: the `shuffle` helper. It is a specification function on sequences, plus the
  in-place method on an `array`.
- `Grid`: cells, the boundaries of the `verticals` and `horizontals` matrices, paths over
  open boundaries, acyclicity through bridge cuts, counting, and spanning trees.
- `Carving`: the ghost bookkeeping of a depth-first carve, on values. It records who entered
  whom, in which order, and which calls are still active. It has the lemmas that turn a
  finished carve into a spanning tree.
- `MazeCarver`: class `Maze` holds the three boolean matrices as `array2` fields, the random
  stream, and the draw cursor. `StepThroughCell` and the loop over the shuffled neighbours
  are recursive methods over those arrays.
- `Walls`: the four borders and the two wall-emission loops over the matrices.
- `Latch`: the per-round `canWin` flags, the collision handler and `win`. Pure functions
  give the meaning; class `Game` runs the handlers as code.
- `Round`: one `init`, from carving the maze to opening the new round's latch.

Randomness is a parameter. `rng(k)` is the k-th number drawn, the maze's `cursor` counts the
draws used, and `Math.floor(Math.random() * b)` is `rng(k) % b`. The start cell takes two
draws. Each shuffle of four neighbours takes four draws: its loop index runs 3, 2, 1, 0 and
draws modulo `i + 1`.

`init` reads the board size from two constants (`rows = 9`, `cols = 12`, script.js:8-9).
`Round.Init` takes the size as two parameters instead. At 9 x 12 its wall count,
`rows * cols - rows - cols + 5`, is 92, and the goal is cell (4, 11).

## Model

| member | source | states |
|---|---|---|
| Shuffle.Shuffle | script.js:27-33 | The in-place pass leaves the array as `Shuffled(old contents, draws)`, where the draw at index i lies in [0, i]. The contents stay a permutation of the input. |
| Shuffle.ShuffledIsPermutation | script.js:27-33 | The shuffled order has the input's length and the same multiset of elements. |
| Shuffle.EveryOrderReachable | script.js:27-33 | Every rearrangement of the input is produced by some valid draw sequence, so the shuffle can yield any order of the four neighbours. |
| Shuffle.PassStep | script.js:28-31 | One loop iteration swaps index i with its draw and fixes position i; the rest of the pass shuffles the shorter prefix. |
| Grid.Between | script.js:88-96 | The boundary shared by two adjacent cells has those two cells as its ends. |
| Grid.CellCount | script.js:52-54 | The `grid` matrix has `rows * cols` cells. |
| Grid.PassageCount | script.js:55-60 | `verticals` has rows x (cols - 1) entries and `horizontals` has (rows - 1) x cols, so there are `rows * (cols - 1) + (rows - 1) * cols` interior boundaries. |
| Grid.ReachableSymmetric | script.js:88-96 | A path over open boundaries can be walked backwards. |
| Grid.ReachableTransitive | script.js:88-96 | Paths over open boundaries compose. |
| Grid.BridgeCutsMeanAcyclic | script.js:88-97 | If every open boundary is the only one crossing some cut, no open boundary lies on a cycle. |
| Grid.FinishedSetIsWholeGrid | script.js:78-86 | A non-empty set of grid cells whose in-grid neighbours are all in the set is the whole grid. |
| Carving.ForestAddChild | script.js:84-97 | Entering an unvisited neighbour over the boundary just opened keeps the visited cells and open boundaries a parent forest, ranked by visiting order. |
| Carving.EdgeCount | script.js:88-97 | A carve opens exactly one boundary per cell that was entered from a neighbour. |
| Carving.PathToRoot | script.js:97 | From every visited cell, open boundaries lead to the start cell it was carved from. |
| Carving.ChildCut | script.js:88-97 | The cells below a child form a cut that only the boundary to its parent crosses. |
| Carving.ForestIsAcyclic | script.js:88-97 | The boundaries a carve opens close no cycle. |
| Carving.ForestIsSpanningTree | script.js:62-101 | A carve from a single start that reached every cell opened a spanning tree of the grid. |
| Carving.ExploredIsWholeGrid | script.js:65-101 | Once no call of `stepThroughCell` is active, a carve that visited one grid cell has visited all of them. |
| Carving.Arrive | script.js:67-69 | Marking an unvisited in-grid cell visited, as a start or from its parent, keeps the search invariant. |
| Carving.OpenTowards | script.js:88-96 | Opening the boundary from a visited cell to an unvisited in-grid neighbour leaves the search ready to enter that neighbour. |
| Carving.Leave | script.js:98-100 | Returning from the call for a cell whose in-grid neighbours are all visited keeps the search invariant. |
| Carving.SearchIsSpanningTree | script.js:62-101 | A finished search from one start cell has visited every cell, and its open boundaries form a spanning tree. |
| MazeCarver.ShuffledNeighbours | script.js:71-76 | The neighbour list is the shuffle of the four triples right, left, down, up under the next four draws, and the cursor advances by four. Each entry points one step away in its own direction, and all four neighbours appear. |
| MazeCarver.ShuffledCandidates | script.js:71-76 | Any permutation of the four triples has four entries, each one step away in its own direction, and it lists every neighbour. |
| MazeCarver.OpenedIsBetween | script.js:88-96 | The matrix entry set for a move right, left, up or down is exactly the boundary between the two cells. |
| MazeCarver.ShuffleDraws | script.js:28-29 | The four draws of a shuffle follow the loop order (i = 3, 2, 1, 0, each modulo i + 1), and each lies in [0, i]. |
| MazeCarver.SettleNext | script.js:78-98 | Neighbours already handled stay outside the grid or visited while more cells are visited, and the one just handled joins them. |
| MazeCarver.FewerUnvisited | script.js:67-69 | Marking an unvisited cell leaves fewer unvisited cells. This bounds the recursion. |
| MazeCarver.Maze.constructor | script.js:52-60 | The three matrices have shapes rows x cols, rows x (cols - 1) and (rows - 1) x cols, every entry false: nothing visited, nothing open. |
| MazeCarver.Maze.MarkVisited | script.js:69 | `grid[row][col] = true` adds exactly that cell to the visited cells. |
| MazeCarver.Maze.Visit | script.js:67-69 | Marking an unvisited cell keeps the matrices mirroring the search, and the cell becomes an active call. |
| MazeCarver.Maze.OpenVertical | script.js:89-91 | Setting `verticals[row][col]` opens exactly the boundary Vertical(row, col). |
| MazeCarver.Maze.OpenHorizontal | script.js:93-95 | Setting `horizontals[row][col]` opens exactly the boundary Horizontal(row, col). |
| MazeCarver.Maze.RemoveWall | script.js:87-96 | For a move towards an unvisited in-grid neighbour, exactly the boundary between the two cells becomes open, and it was closed before. |
| MazeCarver.Maze.StepThroughCell | script.js:65-100 | A visited cell changes nothing. Otherwise the call visits the cell, keeps the search invariant, and returns with every cell it visited finished. The calls still active are its caller's. An open boundary is never closed again. |
| MazeCarver.Maze.CarveFrom | script.js:71-98 | After shuffling and stepping towards every neighbour, the cell is finished, and its call is no longer active. Open boundaries stay open. |
| MazeCarver.Maze.StepTowardsAll | script.js:78-98 | After the loop, every shuffled neighbour is outside the grid or visited. Open boundaries stay open. |
| MazeCarver.Maze.StepTowards | script.js:79-97 | A neighbour that is outside the grid or visited is skipped. Otherwise the wall towards it is removed and the carve recurses into it. Either way it ends outside the grid or visited, and open boundaries stay open. |
| MazeCarver.Maze.Carve | script.js:62-101 | The start lies in the grid. Afterwards every `grid` flag is set, and the set entries of `verticals` and `horizontals` form a spanning tree of the grid. |
| Walls.EmitRow | script.js:105-115 | One matrix row appends one wall for each false entry, left to right. |
| Walls.EmitMatrix | script.js:104-117 | One `map` over a matrix appends the walls of its false entries, row by row. |
| Walls.EmitWalls | script.js:44-132 | The program adds the four borders, then the closed horizontal boundaries, then the closed vertical ones: exactly `Walls(rows, cols, open)`. |
| Walls.WallsAreClosedBoundaries | script.js:103-132 | A wall is a border, or it stands on an in-grid boundary that is not open. Every such boundary has a wall. |
| Walls.WallsDistinct | script.js:103-132 | No boundary gets two walls. |
| Walls.WallCount | script.js:44-132 | There are 4 walls plus one per in-grid boundary that is not open. |
| Walls.CarvedWallCount | script.js:44-132 | After a full carve there are `4 + rows * (cols - 1) + (rows - 1) * cols - (rows * cols - 1)` walls, 92 on the 9 x 12 board. |
| Latch.OnPair | script.js:193-210 | One colliding pair keeps one latch per round. |
| Latch.FirstWinner | script.js:196-209 | The first qualifying player of an event qualifies on one of its pairs. If no player is found, no pair qualifies for either player. |
| Latch.ClosedHandlerIsSilent | script.js:196-209 | The handler of a round whose `canWin` is false changes nothing. |
| Latch.LatchesOnlyClose | script.js:178-209 | No collision reopens a closed round. |
| Latch.HandlerOutcome | script.js:192-211 | The handler of an open round credits exactly the first qualifying player of the event, green before blue within a pair, and closes its round. With no qualifying pair, nothing changes. |
| Latch.EventsConserve | script.js:179-211 | Wins plus still-open rounds stay constant over any sequence of collision events. |
| Latch.AtMostOneWinPerRound | script.js:178-211 | When a round starts with every earlier round closed, it hands out at most one win, whatever collisions follow. |
| Latch.Game.constructor | script.js:178 | Before the first `init` there is no handler and the scores are given. |
| Latch.Game.StartRound | script.js:178-192 | A new `init` adds an open latch and a new handler. |
| Latch.Game.Win | script.js:179-184 | `win(p)` closes its round's latch and adds one to p's score. |
| Latch.Game.HandlePair | script.js:194-209 | The two tests for one pair have the effect `OnPair` gives. |
| Latch.Game.Handle | script.js:193-210 | The `forEach` over an event's pairs has the effect `OnPairs` gives. |
| Latch.Game.CollisionStart | script.js:192-211 | An event reaches every subscribed handler in subscription order, with the effect `OnEvent` gives. |
| Round.Placements | script.js:134-164 | The goal and the two start cells are cells of the board. The players start apart when there are two rows, and neither starts on the goal when there are two columns. |
| Round.GoalReachable | script.js:134-164 | On a carved board, both players' start cells reach the goal cell through open boundaries. |
| Round.BuildBoard | script.js:44-132 | The matrices, the carve from a random start, and the walls it leaves: a spanning tree, and exactly its closed boundaries as walls. |
| Round.Init | script.js:38-211 | `init` leaves the three matrices mirroring the maze with every cell visited, carves a spanning tree of the board and emits `rows * cols - rows - cols + 5` walls, the closed boundaries. The goal is at (rows / 2, cols - 1), the players at (0, 0) and (rows - 1, 0), both can reach the goal, and a new round of the latch opens. |

## Left out

- Matter.js: the engine, renderer and runner, and `World.add` / `World.clear` /
  `Engine.clear`. Also body creation, pixel sizes and positions, physics, gravity, and
  `Body.setStatic` in `win`. Walls, the goal and the players are named by cells and
  boundaries, not by rectangles and circles.
- The DOM: the `h2` text and the score elements. The scores are the two `Board` counters;
  `parseInt` of the text and its rendering are left out.
- The keyboard listener (script.js:167-177). It moves players by velocity, which is physics.
- Collision detection itself. A `collisionStart` event is given as the list of label pairs
  the engine reports. Border rectangles carry Matter.js's default label `'Rectangle Body'`,
  which the constructor `Latch.RectangleBody` stands for.
- `setTimeout(init, 3000)`. The model starts a new round with an explicit `StartRound` or
  `Init` call. Time and the interleaving of the timer with collision events are left out.
- `Math.random`. It is an injected stream `rng` of naturals; `Math.floor(Math.random() * b)`
  is `rng(k) % b`. That keeps the index range, but the stream is not uniform or random.
- Handler accumulation. Each `init` subscribes another handler and `Engine.clear` does not
  remove the earlier ones. The model keeps one latch per round ever started, and proves
  the closed ones silent.
- The JavaScript call stack. `stepThroughCell` recurses up to `rows * cols` deep; the model
  does not bound recursion depth.
- The carver's proof state (active calls, parents, visiting order) is a ghost `Record`
  passed to and returned from the methods. It is not a field of the maze.
- MazeCarver.Maze.StepThroughCell: does not relate `cursor` to the draws used, beyond
  the four draws per shuffle in `MazeCarver.ShuffledNeighbours`. The count depends on
  how many cells each call reaches, and no property modelled here depends on it.
- MazeCarver.Maze.Carve: does not state how many draws the whole carve consumes.
- Round.Init: takes the board size as parameters rather than the fixed 9 x 12. The
  9 x 12 instance follows by substitution.
- `scriptDemo.js` is not part of this model.
