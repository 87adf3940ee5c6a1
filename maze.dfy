/** The randomised recursive backtracker of `init` (script.js:52-101): three
    boolean matrices, a start cell drawn at random, and `stepThroughCell`,
    which marks a cell visited, shuffles its four neighbours and opens the
    boundary to each in-bounds neighbour that is still unvisited before
    recursing into it.

    Randomness is a parameter: `rng(k)` is the k-th number the program draws,
    `cursor` counts the draws used so far, and `Math.floor(Math.random() * b)`
    becomes `rng(k) % b`. */
module MazeCarver {
  import opened Grid
  import opened Wrappers
  import opened Carving
  import Shuffle

  datatype Direction = Right | Left | Down | Up

  /** One `[r, c, d]` triple of the neighbour list. */
  datatype Neighbour = Neighbour(row: int, col: int, dir: Direction)

  function Target(nb: Neighbour): Cell {
    Cell(nb.row, nb.col)
  }

  /** The neighbour list built for cell u before it is shuffled. */
  function Candidates(u: Cell): seq<Neighbour> {
    [Neighbour(u.row, u.col + 1, Right), Neighbour(u.row, u.col - 1, Left),
     Neighbour(u.row + 1, u.col, Down), Neighbour(u.row - 1, u.col, Up)]
  }

  /** nb lies one step from u in nb's own direction. */
  predicate Toward(u: Cell, nb: Neighbour) {
    match nb.dir
    case Right => nb.row == u.row && nb.col == u.col + 1
    case Left => nb.row == u.row && nb.col == u.col - 1
    case Down => nb.row == u.row + 1 && nb.col == u.col
    case Up => nb.row == u.row - 1 && nb.col == u.col
  }

  /** The matrix entry the carver sets when it moves from u towards nb:
      `verticals[row][col]` for right, `verticals[row][col - 1]` for left,
      `horizontals[row - 1][col]` for up and `horizontals[row][col]` otherwise. */
  function Opened(u: Cell, nb: Neighbour): Passage {
    match nb.dir
    case Right => Vertical(u.row, u.col)
    case Left => Vertical(u.row, u.col - 1)
    case Up => Horizontal(u.row - 1, u.col)
    case Down => Horizontal(u.row, u.col)
  }

  /** The entry set for a move is exactly the boundary between the two cells. */
  lemma OpenedIsBetween(u: Cell, nb: Neighbour)
    requires Toward(u, nb)
    ensures Adjacent(u, Target(nb))
    ensures Opened(u, nb) == Between(u, Target(nb))
  {
  }

  /** However the list is shuffled, every entry points one step away from u
      in its own direction, and every one of u's four neighbours is listed. */
  lemma ShuffledCandidates(u: Cell, ns: seq<Neighbour>)
    requires multiset(ns) == multiset(Candidates(u))
    ensures |ns| == 4
    ensures forall j :: 0 <= j < |ns| ==> Toward(u, ns[j])
    ensures forall m :: m in Neighbours(u) ==> exists j :: 0 <= j < |ns| && Target(ns[j]) == m
  {
    var cs := Candidates(u);
    assert |ns| == |multiset(ns)| == |multiset(cs)| == 4;
    forall j | 0 <= j < |ns| ensures Toward(u, ns[j]) {
      assert ns[j] in multiset(cs);
    }
    forall m | m in Neighbours(u) ensures exists j :: 0 <= j < |ns| && Target(ns[j]) == m {
      var i :| 0 <= i < 4 && Target(cs[i]) == m;
      assert cs[i] in multiset(ns);
      var j :| 0 <= j < |ns| && ns[j] == cs[i];
    }
  }

  /** The partners drawn for shuffling the four neighbours starting at draw
      `from`: at loop index i the program takes `Math.floor(Math.random() * (i + 1))`,
      and the loop runs i = 3, 2, 1, 0. */
  function ShuffleDraws(rng: nat -> nat, from: nat): (draws: seq<nat>)
    ensures Shuffle.ValidDraws(draws, 4)
  {
    [rng(from + 3) % 1, rng(from + 2) % 2, rng(from + 1) % 3, rng(from) % 4]
  }

  /** The first k entries of ns lead outside the grid or to a cell of V. */
  predicate Settled(rows: int, cols: int, V: set<Cell>, ns: seq<Neighbour>, k: nat)
    requires k <= |ns|
  {
    forall j :: 0 <= j < k ==> !InGrid(rows, cols, Target(ns[j])) || Target(ns[j]) in V
  }

  /** Settled entries stay settled as V grows, and one more joins them. */
  lemma SettleNext(rows: int, cols: int, V0: set<Cell>, V1: set<Cell>, ns: seq<Neighbour>, k: nat)
    requires k < |ns| && Settled(rows, cols, V0, ns, k) && V0 <= V1
    requires !InGrid(rows, cols, Target(ns[k])) || Target(ns[k]) in V1
    ensures Settled(rows, cols, V1, ns, k + 1)
  {
    forall j | 0 <= j < k + 1 ensures !InGrid(rows, cols, Target(ns[j])) || Target(ns[j]) in V1 {
      if j < k && InGrid(rows, cols, Target(ns[j])) {
        assert Target(ns[j]) in V0;
      }
    }
  }

  /** Visiting more never leaves more cells unvisited. */
  lemma FewerOrSameUnvisited(A: set<Cell>, V0: set<Cell>, V1: set<Cell>)
    requires V0 <= V1
    ensures |A - V1| <= |A - V0|
  {
    var B := A - V0;
    assert B == (A - V1) + (B * V1) && (A - V1) !! (B * V1);
  }

  /** Visiting u leaves fewer unvisited cells: the recursion's measure. */
  lemma FewerUnvisited(A: set<Cell>, V0: set<Cell>, V1: set<Cell>, u: Cell)
    requires V0 + {u} <= V1 && u in A && u !in V0
    ensures |A - V1| < |A - V0|
  {
    var B := A - V0;
    assert B == (A - V1) + (B * V1) && (A - V1) !! (B * V1);
    assert u in B * V1;
  }


  /** The state of one run of `init`'s carver. `visited` and `open` are the
      abstract contents of the matrices: the cells whose `grid` flag is set and
      the boundaries whose `verticals` / `horizontals` entry is set.  The rest
      of what the search knows (which calls are active, who entered whom) is a
      ghost `Record` that the methods take and return. */
  class Maze {
    const rows: int
    const cols: int
    const rng: nat -> nat
    const grid: array2<bool>
    const verticals: array2<bool>
    const horizontals: array2<bool>
    var cursor: nat
    ghost var visited: set<Cell>
    ghost var open: set<Passage>

    /** The matrices have the shapes `init` gives them and mirror `visited` and `open`. */
    ghost predicate Valid()
      reads this, grid, verticals, horizontals
    {
      && grid.Length0 == rows && grid.Length1 == cols
      && verticals.Length0 == rows && verticals.Length1 == cols - 1
      && horizontals.Length0 == rows - 1 && horizontals.Length1 == cols
      && grid != verticals && grid != horizontals && verticals != horizontals
      && (forall v :: v in visited ==> InGrid(rows, cols, v))
      && (forall r, c :: 0 <= r < rows && 0 <= c < cols ==> (grid[r, c] <==> Cell(r, c) in visited))
      && (forall p :: p in open ==> PassageInGrid(rows, cols, p))
      && (forall r, c :: 0 <= r < rows && 0 <= c < cols - 1 ==> (verticals[r, c] <==> Vertical(r, c) in open))
      && (forall r, c :: 0 <= r < rows - 1 && 0 <= c < cols ==> (horizontals[r, c] <==> Horizontal(r, c) in open))
    }

    /** The three matrices, every entry false (script.js:52-60).  `Array(cols - 1)`
        and `Array(rows - 1)` need rows and cols of at least 1. */
    constructor (rows: int, cols: int, rng: nat -> nat)
      requires 1 <= rows && 1 <= cols
      ensures Valid()
      ensures this.rows == rows && this.cols == cols && this.rng == rng && cursor == 0
      ensures visited == {} && open == {}
      ensures fresh(grid) && fresh(verticals) && fresh(horizontals)
    {
      this.rows, this.cols, this.rng := rows, cols, rng;
      grid := new bool[rows, cols]((_, _) => false);
      verticals := new bool[rows, cols - 1]((_, _) => false);
      horizontals := new bool[rows - 1, cols]((_, _) => false);
      cursor := 0;
      visited, open := {}, {};
    }

    /** "Mark the cell as being visited" (script.js:69). */
    method MarkVisited(row: int, col: int)
      requires Valid() && 0 <= row < rows && 0 <= col < cols && Cell(row, col) !in visited
      modifies this`visited, grid
      ensures Valid() && visited == old(visited) + {Cell(row, col)}
    {
      grid[row, col] := true;
      visited := visited + {Cell(row, col)};
    }

    /** Marking (row, col) visited makes it part of the search,
        entered from `from` over the boundary just opened or, when `from` is
        None, as a new start. */
    method Visit(row: int, col: int, ghost from: Option<Cell>, ghost r: Record) returns (ghost r': Record)
      requires Valid() && 0 <= row < rows && 0 <= col < cols && Cell(row, col) !in visited
      requires Arriving(rows, cols, visited, open, r, from, Cell(row, col))
      modifies this`visited, grid
      ensures Valid() && Search(rows, cols, visited, open, r')
      ensures visited == old(visited) + {Cell(row, col)}
      ensures r' == Enter(r, old(visited), Cell(row, col), from) && Cell(row, col) !in r.active
    {
      var u := Cell(row, col);
      Arrive(rows, cols, visited, open, r, from, u);
      r' := Enter(r, visited, u, from);
      MarkVisited(row, col);
    }

    /** Setting `verticals[row][col]` opens the boundary Vertical(row, col). */
    method OpenVertical(row: int, col: int)
      requires Valid() && 0 <= row < rows && 0 <= col < cols - 1
      modifies this`open, verticals
      ensures Valid() && open == old(open) + {Vertical(row, col)}
    {
      verticals[row, col] := true;
      open := open + {Vertical(row, col)};
    }

    /** Setting `horizontals[row][col]` opens the boundary Horizontal(row, col). */
    method OpenHorizontal(row: int, col: int)
      requires Valid() && 0 <= row < rows - 1 && 0 <= col < cols
      modifies this`open, horizontals
      ensures Valid() && open == old(open) + {Horizontal(row, col)}
    {
      horizontals[row, col] := true;
      open := open + {Horizontal(row, col)};
    }

    /** "Remove wall" (script.js:87-96): the entry set for a move from a
        visited cell towards an unvisited in-grid neighbour is the boundary
        between the two cells; exactly that boundary becomes open, and it was
        closed before. */
    method RemoveWall(row: int, col: int, nb: Neighbour, ghost r: Record)
      requires Valid() && Search(rows, cols, visited, open, r) && Toward(Cell(row, col), nb)
      requires Cell(row, col) in visited && InGrid(rows, cols, Target(nb)) && Target(nb) !in visited
      modifies this`open, verticals, horizontals
      ensures Valid() && Arriving(rows, cols, visited, open, r, Some(Cell(row, col)), Target(nb))
      ensures old(open) == open - {Between(Cell(row, col), Target(nb))}
      ensures open == old(open) + {Between(Cell(row, col), Target(nb))}
    {
      var u := Cell(row, col);
      OpenedIsBetween(u, nb);
      OpenTowards(rows, cols, visited, open, r, u, Target(nb));
      var d := nb.dir;
      if d == Right {
        OpenVertical(row, col);
      } else if d == Left {
        OpenVertical(row, col - 1);
      } else if d == Up {
        OpenHorizontal(row - 1, col);
      } else {
        OpenHorizontal(row, col);
      }
    }

    /** "Assemble randomly its neighbours" (script.js:71-76): the four
        neighbour triples in the order the shuffle leaves them, which uses the
        next four draws.  Every entry points one step from u in its own
        direction, and each of u's four neighbours appears. */
    method ShuffledNeighbours(u: Cell) returns (ns: seq<Neighbour>)
      modifies this`cursor
      ensures cursor == old(cursor) + 4
      ensures ns == Shuffle.Shuffled(Candidates(u), ShuffleDraws(rng, old(cursor)))
      ensures |ns| == 4
      ensures forall j :: 0 <= j < |ns| ==> Toward(u, ns[j])
      ensures forall m :: m in Neighbours(u) ==> exists j :: 0 <= j < |ns| && Target(ns[j]) == m
    {
      var neighbours := new Neighbour[4] [Neighbour(u.row, u.col + 1, Right), Neighbour(u.row, u.col - 1, Left),
                                          Neighbour(u.row + 1, u.col, Down), Neighbour(u.row - 1, u.col, Up)];
      assert neighbours[..] == Candidates(u);
      Shuffle.Shuffle(neighbours, ShuffleDraws(rng, cursor));
      cursor := cursor + 4;
      ns := neighbours[..];
      ShuffledCandidates(u, ns);
    }

    /** `stepThroughCell(row, col)`, called from the start or, with `from`,
        right after the boundary from `from` has been opened.  On a visited
        cell nothing changes.  Otherwise the call visits (row, col), carves on
        from it, and returns once every cell it visited has all its in-grid
        neighbours visited: the calls still active are the caller's. */
    method StepThroughCell(row: int, col: int, ghost from: Option<Cell>, ghost r: Record) returns (ghost r': Record)
      requires Valid() && 0 <= row < rows && 0 <= col < cols
      requires Arriving(rows, cols, visited, open, r, from, Cell(row, col))
      modifies this, grid, verticals, horizontals
      ensures Valid() && Search(rows, cols, visited, open, r')
      ensures old(visited) + {Cell(row, col)} <= visited && old(open) <= open
      ensures r'.active == r.active
      ensures r'.roots == if from.None? && Cell(row, col) !in old(visited) then r.roots + {Cell(row, col)} else r.roots
      ensures Cell(row, col) in old(visited) ==>
        && visited == old(visited) && open == old(open) && cursor == old(cursor) && r' == r
        && unchanged(grid) && unchanged(verticals) && unchanged(horizontals)
      decreases |AllCells(rows, cols) - visited|, 0
    {
      var u := Cell(row, col);
      r' := r;
      if !grid[row, col] {
        ghost var V0 := visited;
        AllCellsAreInGrid(rows, cols, u);
        r' := Visit(row, col, from, r);
        EnterThenLeave(r, V0, u, from);
        FewerUnvisited(AllCells(rows, cols), V0, visited, u);
        r' := CarveFrom(row, col, r');
      }
    }

    /** The body of `stepThroughCell` after the cell is marked (script.js:71-98):
        shuffle its neighbours and step towards each in turn.  The call for
        (row, col) then returns with all its in-grid neighbours visited. */
    method CarveFrom(row: int, col: int, ghost r: Record) returns (ghost r': Record)
      requires Valid() && Search(rows, cols, visited, open, r)
      requires InGrid(rows, cols, Cell(row, col)) && Cell(row, col) in visited
      modifies this, grid, verticals, horizontals
      ensures Valid() && Search(rows, cols, visited, open, r')
      ensures old(visited) <= visited && old(open) <= open
      ensures r'.active == r.active - {Cell(row, col)} && r'.roots == r.roots
      decreases |AllCells(rows, cols) - visited|, 3
    {
      var u := Cell(row, col);
      var ns := ShuffledNeighbours(u);
      r' := StepTowardsAll(row, col, ns, r);
      assert Finished(rows, cols, visited, u) by {
        forall m | m in Neighbours(u) && InGrid(rows, cols, m) ensures m in visited {
          var j :| 0 <= j < |ns| && Target(ns[j]) == m;
        }
      }
      Leave(rows, cols, visited, open, r', u);
      r' := r'.(active := r'.active - {u});
    }

    /** The loop over the shuffled neighbours (script.js:78-98): afterwards
        each of them is outside the grid or visited. */
    method StepTowardsAll(row: int, col: int, ns: seq<Neighbour>, ghost r: Record) returns (ghost r': Record)
      requires Valid() && Search(rows, cols, visited, open, r)
      requires InGrid(rows, cols, Cell(row, col)) && Cell(row, col) in visited
      requires forall j :: 0 <= j < |ns| ==> Toward(Cell(row, col), ns[j])
      modifies this, grid, verticals, horizontals
      ensures Valid() && Search(rows, cols, visited, open, r')
      ensures old(visited) <= visited && old(open) <= open
      ensures r'.active == r.active && r'.roots == r.roots
      ensures Settled(rows, cols, visited, ns, |ns|)
      decreases |AllCells(rows, cols) - visited|, 2
    {
      r' := r;
      for k := 0 to |ns|
        invariant Valid() && Search(rows, cols, visited, open, r')
        invariant old(visited) <= visited && old(open) <= open
        invariant r'.active == r.active && r'.roots == r.roots
        invariant Settled(rows, cols, visited, ns, k)
      {
        ghost var V1 := visited;
        FewerOrSameUnvisited(AllCells(rows, cols), old(visited), V1);
        r' := StepTowards(row, col, ns[k], r');
        SettleNext(rows, cols, V1, visited, ns, k);
      }
    }

    /** One pass of the loop over the shuffled neighbours (script.js:79-97):
        skip a neighbour outside the grid or already visited, otherwise open
        the boundary towards it and carve from it.  Afterwards the neighbour
        is outside the grid or visited. */
    method StepTowards(row: int, col: int, nb: Neighbour, ghost r: Record) returns (ghost r': Record)
      requires Valid() && Search(rows, cols, visited, open, r)
      requires InGrid(rows, cols, Cell(row, col)) && Cell(row, col) in visited && Toward(Cell(row, col), nb)
      modifies this, grid, verticals, horizontals
      ensures Valid() && Search(rows, cols, visited, open, r')
      ensures old(visited) <= visited && old(open) <= open
      ensures r'.active == r.active && r'.roots == r.roots
      ensures !InGrid(rows, cols, Target(nb)) || Target(nb) in visited
      decreases |AllCells(rows, cols) - visited|, 1
    {
      var rr, c := nb.row, nb.col;
      if rr >= rows || rr < 0 || c < 0 || c >= cols {
        return r;
      }
      if grid[rr, c] {
        return r;
      }
      RemoveWall(row, col, nb, r);
      r' := StepThroughCell(rr, c, Some(Cell(row, col)), r);
    }

    /** `stepThroughCell(startRow, startColumn)` from a start cell drawn with
        `Math.floor(Math.random() * rows)` and `Math.floor(Math.random() * cols)`
        (script.js:62-63, 101): the start lies in the grid, afterwards every
        `grid` flag is set, and the set entries of `verticals` and `horizontals`
        form a spanning tree of the grid graph, so there are rows * cols - 1 of
        them, they join every cell to every other, and they close no cycle. */
    method Carve() returns (startRow: int, startColumn: int)
      requires Valid() && visited == {} && open == {}
      modifies this, grid, verticals, horizontals
      ensures Valid()
      ensures 0 <= startRow < rows && 0 <= startColumn < cols
      ensures forall r, c :: 0 <= r < rows && 0 <= c < cols ==> grid[r, c]
      ensures visited == AllCells(rows, cols)
      ensures SpanningTree(rows, cols, open)
    {
      startRow := rng(cursor) % rows;
      startColumn := rng(cursor + 1) % cols;
      cursor := cursor + 2;
      var s := Cell(startRow, startColumn);
      SearchStart(rows, cols);
      ghost var r := StepThroughCell(startRow, startColumn, None, Empty);
      forall v | v in visited ensures v in AllCells(rows, cols) {
        AllCellsAreInGrid(rows, cols, v);
      }
      forall p | p in open ensures p in AllPassages(rows, cols) {
        AllPassagesAreInGrid(rows, cols, p);
      }
      SearchIsSpanningTree(rows, cols, visited, open, r, s);
      forall i, j | 0 <= i < rows && 0 <= j < cols ensures grid[i, j] {
        AllCellsAreInGrid(rows, cols, Cell(i, j));
        assert Cell(i, j) in visited;
      }
    }
  }
}
