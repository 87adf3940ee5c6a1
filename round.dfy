/** One call of `init` (script.js:38-211), at the level of cells: carve the
    maze, emit its walls, place the goal and the two players, and open a new
    round of the win latch.  The page fixes the board at 9 rows and 12
    columns (script.js:8-9); the model takes the two sizes as parameters. */
module Round {
  import opened Grid
  import MazeCarver
  import Walls
  import Latch

  /** The goal sits in the last column, in row floor(rows / 2) (script.js:134-136). */
  function GoalCell(rows: nat, cols: nat): Cell {
    Cell(rows / 2, cols - 1)
  }

  /** Player 1 starts at the centre of the top-left cell (script.js:150). */
  function Player1Start(): Cell {
    Cell(0, 0)
  }

  /** Player 2 starts at the centre of the bottom-left cell (script.js:158). */
  function Player2Start(rows: nat): Cell {
    Cell(rows - 1, 0)
  }

  /** The three placements are cells of the board; the players start apart
      when there are two rows, and neither starts on the goal when there are
      two columns. */
  lemma Placements(rows: nat, cols: nat)
    requires rows >= 1 && cols >= 1
    ensures InGrid(rows, cols, GoalCell(rows, cols))
    ensures InGrid(rows, cols, Player1Start()) && InGrid(rows, cols, Player2Start(rows))
    ensures rows >= 2 ==> Player1Start() != Player2Start(rows)
    ensures cols >= 2 ==> GoalCell(rows, cols) != Player1Start() && GoalCell(rows, cols) != Player2Start(rows)
  {
  }

  /** Through the open boundaries of a carved board, both players can reach the goal. */
  lemma GoalReachable(rows: nat, cols: nat, open: set<Passage>)
    requires rows >= 1 && cols >= 1 && SpanningTree(rows, cols, open)
    ensures Reachable(open, Player1Start(), GoalCell(rows, cols))
    ensures Reachable(open, Player2Start(rows), GoalCell(rows, cols))
  {
    AllCellsAreInGrid(rows, cols, GoalCell(rows, cols));
    AllCellsAreInGrid(rows, cols, Player1Start());
    AllCellsAreInGrid(rows, cols, Player2Start(rows));
  }

  /** The matrices of script.js:52-60, the carve from a random start
      (script.js:62-101) and the walls it leaves (script.js:44-49, 103-132). */
  method BuildBoard(rows: int, cols: int, rng: nat -> nat) returns (m: MazeCarver.Maze, walls: seq<Walls.Wall>)
    requires 1 <= rows && 1 <= cols
    ensures fresh(m) && m.Valid() && m.rows == rows && m.cols == cols
    ensures m.visited == AllCells(m.rows, m.cols) && SpanningTree(m.rows, m.cols, m.open)
    ensures walls == Walls.Walls(m.rows, m.cols, m.open)
  {
    m := new MazeCarver.Maze(rows, cols, rng);
    var startRow, startColumn := m.Carve();
    walls := Walls.EmitWalls(m.horizontals, m.verticals, m.open, m.rows, m.cols);
  }

  /** `init` on a board of the given size: the maze it carves is a spanning
      tree of the board, its walls are the four borders and the boundaries
      left closed, both players can reach the goal through open boundaries,
      and a new round of the latch begins.  `rng` is the stream of draws the
      round consumes. */
  method Init(rows: int, cols: int, rng: nat -> nat, game: Latch.Game)
    returns (m: MazeCarver.Maze, walls: seq<Walls.Wall>, goal: Cell, p1: Cell, p2: Cell)
    requires 1 <= rows && 1 <= cols
    requires Latch.Count(game.latches) == 0
    modifies game
    ensures fresh(m) && m.rows == rows && m.cols == cols && SpanningTree(rows, cols, m.open)
    ensures m.Valid() && m.visited == AllCells(rows, cols)
    ensures walls == Walls.Walls(rows, cols, m.open) && |walls| == rows * cols - rows - cols + 5
    ensures goal == Cell(rows / 2, cols - 1) && p1 == Cell(0, 0) && p2 == Cell(rows - 1, 0)
    ensures Reachable(m.open, p1, goal) && Reachable(m.open, p2, goal)
    ensures game.Current() == Latch.NewRound(old(game.Current()))
  {
    m, walls := BuildBoard(rows, cols, rng);
    Walls.CarvedWallCount(rows, cols, m.open);
    goal := GoalCell(rows, cols);
    p1 := Player1Start();
    p2 := Player2Start(rows);
    GoalReachable(rows, cols, m.open);
    game.StartRound();
  }
}
