/** The rectangular lattice a maze is carved on: its cells, the interior
    boundaries between neighbouring cells, paths over open boundaries, and the
    graph facts that turn the carver's bookkeeping into "spanning tree". */
module Grid {

  datatype Cell = Cell(row: int, col: int)

  /** An interior boundary.  Vertical(r, c) lies between cells (r, c) and
      (r, c + 1) and is entry [r][c] of the `verticals` matrix; Horizontal(r, c)
      lies between (r, c) and (r + 1, c) and is entry [r][c] of `horizontals`. */
  datatype Passage = Vertical(row: int, col: int) | Horizontal(row: int, col: int)

  /** The two cells a boundary separates: Lo is the upper or left one. */
  function Lo(p: Passage): Cell {
    Cell(p.row, p.col)
  }

  function Hi(p: Passage): Cell {
    match p
    case Vertical(r, c) => Cell(r, c + 1)
    case Horizontal(r, c) => Cell(r + 1, c)
  }

  predicate InGrid(rows: int, cols: int, c: Cell) {
    0 <= c.row < rows && 0 <= c.col < cols
  }

  /** The index ranges of the two matrices: rows x (cols - 1) and (rows - 1) x cols. */
  predicate PassageInGrid(rows: int, cols: int, p: Passage) {
    match p
    case Vertical(r, c) => 0 <= r < rows && 0 <= c < cols - 1
    case Horizontal(r, c) => 0 <= r < rows - 1 && 0 <= c < cols
  }

  predicate Adjacent(a: Cell, b: Cell) {
    || (a.row == b.row && (a.col + 1 == b.col || b.col + 1 == a.col))
    || (a.col == b.col && (a.row + 1 == b.row || b.row + 1 == a.row))
  }

  /** The four candidate neighbours: right, left, down, up. */
  function Neighbours(c: Cell): set<Cell> {
    {Cell(c.row, c.col + 1), Cell(c.row, c.col - 1), Cell(c.row + 1, c.col), Cell(c.row - 1, c.col)}
  }

  /** The boundary shared by two adjacent cells. */
  function Between(a: Cell, b: Cell): (p: Passage)
    requires Adjacent(a, b)
    ensures (Lo(p) == a && Hi(p) == b) || (Lo(p) == b && Hi(p) == a)
  {
    if a.row == b.row then Vertical(a.row, if a.col < b.col then a.col else b.col)
    else Horizontal(if a.row < b.row then a.row else b.row, a.col)
  }

  lemma BetweenSymmetric(a: Cell, b: Cell)
    requires Adjacent(a, b)
    ensures Adjacent(b, a) && Between(a, b) == Between(b, a)
  {
  }

  function AllCells(rows: int, cols: int): set<Cell> {
    set r, c | 0 <= r < rows && 0 <= c < cols :: Cell(r, c)
  }

  function VerticalAt(c: Cell): Passage { Vertical(c.row, c.col) }
  function HorizontalAt(c: Cell): Passage { Horizontal(c.row, c.col) }

  /** Every entry of `verticals` (rows x (cols - 1)) and of `horizontals` ((rows - 1) x cols). */
  function AllPassages(rows: int, cols: int): set<Passage> {
    (set c | c in AllCells(rows, cols - 1) :: VerticalAt(c))
    + (set c | c in AllCells(rows - 1, cols) :: HorizontalAt(c))
  }

  lemma AllCellsAreInGrid(rows: int, cols: int, c: Cell)
    ensures c in AllCells(rows, cols) <==> InGrid(rows, cols, c)
  {
    if InGrid(rows, cols, c) {
      assert Cell(c.row, c.col) in AllCells(rows, cols);
    }
  }

  lemma AllPassagesAreInGrid(rows: int, cols: int, p: Passage)
    ensures p in AllPassages(rows, cols) <==> PassageInGrid(rows, cols, p)
  {
    if PassageInGrid(rows, cols, p) {
      match p
      case Vertical(r, c) =>
        AllCellsAreInGrid(rows, cols - 1, Cell(r, c));
        assert VerticalAt(Cell(r, c)) == p;
      case Horizontal(r, c) =>
        AllCellsAreInGrid(rows - 1, cols, Cell(r, c));
        assert HorizontalAt(Cell(r, c)) == p;
    }
    if p in AllPassages(rows, cols) {
      if p.Vertical? {
        var c :| c in AllCells(rows, cols - 1) && VerticalAt(c) == p;
        AllCellsAreInGrid(rows, cols - 1, c);
      } else {
        var c :| c in AllCells(rows - 1, cols) && HorizontalAt(c) == p;
        AllCellsAreInGrid(rows - 1, cols, c);
      }
    }
  }

  // ---------------------------------------------------------------------------
  // Counting.

  function RowCells(r: int, cols: int): set<Cell> {
    set c | 0 <= c < cols :: Cell(r, c)
  }

  lemma {:induction false} RowCount(r: int, cols: nat)
    ensures |RowCells(r, cols)| == cols
  {
    if cols > 0 {
      RowCount(r, cols - 1);
      assert RowCells(r, cols) == RowCells(r, cols - 1) + {Cell(r, cols - 1)};
    }
  }

  /** The grid is the grid one row shorter plus its last row. */
  lemma LastRow(rows: nat, cols: nat)
    requires rows > 0
    ensures AllCells(rows, cols) == AllCells(rows - 1, cols) + RowCells(rows - 1, cols)
    ensures AllCells(rows - 1, cols) !! RowCells(rows - 1, cols)
  {
    forall c | c in AllCells(rows, cols) ensures c in AllCells(rows - 1, cols) + RowCells(rows - 1, cols) {
      if c.row < rows - 1 {
        assert c in AllCells(rows - 1, cols);
      } else {
        assert c in RowCells(rows - 1, cols);
      }
    }
  }

  /** The grid has rows * cols cells. */
  lemma {:induction false} CellCount(rows: nat, cols: nat)
    ensures |AllCells(rows, cols)| == rows * cols
  {
    if rows > 0 {
      CellCount(rows - 1, cols);
      RowCount(rows - 1, cols);
      LastRow(rows, cols);
      assert (rows - 1) * cols + cols == rows * cols;
    }
  }

  /** Naming the vertical boundary right of each cell of S names |S| distinct boundaries. */
  lemma {:induction false} VerticalCount(S: set<Cell>)
    ensures |set c | c in S :: VerticalAt(c)| == |S|
    decreases |S|
  {
    if S != {} {
      var x :| x in S;
      var S' := S - {x};
      VerticalCount(S');
      assert (set c | c in S :: VerticalAt(c)) == (set c | c in S' :: VerticalAt(c)) + {VerticalAt(x)};
    }
  }

  /** Naming the horizontal boundary below each cell of S names |S| distinct boundaries. */
  lemma {:induction false} HorizontalCount(S: set<Cell>)
    ensures |set c | c in S :: HorizontalAt(c)| == |S|
    decreases |S|
  {
    if S != {} {
      var x :| x in S;
      var S' := S - {x};
      HorizontalCount(S');
      assert (set c | c in S :: HorizontalAt(c)) == (set c | c in S' :: HorizontalAt(c)) + {HorizontalAt(x)};
    }
  }

  /** The two matrices hold rows * (cols - 1) + (rows - 1) * cols boundaries. */
  lemma PassageCount(rows: nat, cols: nat)
    requires rows >= 1 && cols >= 1
    ensures |AllPassages(rows, cols)| == rows * (cols - 1) + (rows - 1) * cols
  {
    var V, H := AllCells(rows, cols - 1), AllCells(rows - 1, cols);
    var vs := set c | c in V :: VerticalAt(c);
    var hs := set c | c in H :: HorizontalAt(c);
    CellCount(rows, cols - 1);
    CellCount(rows - 1, cols);
    VerticalCount(V);
    HorizontalCount(H);
    assert AllPassages(rows, cols) == vs + hs;
    assert vs * hs == {};
    assert |vs + hs| == |vs| + |hs|;
  }

  // ---------------------------------------------------------------------------
  // Paths over a set of open passages.

  /** A non-empty walk whose consecutive cells are adjacent through an open passage. */
  ghost predicate IsPath(F: set<Passage>, path: seq<Cell>) {
    && |path| >= 1
    && forall k :: 0 <= k < |path| - 1 ==> Adjacent(path[k], path[k + 1]) && Between(path[k], path[k + 1]) in F
  }

  ghost predicate PathFromTo(F: set<Passage>, path: seq<Cell>, a: Cell, b: Cell) {
    IsPath(F, path) && path[0] == a && path[|path| - 1] == b
  }

  ghost predicate Reachable(F: set<Passage>, a: Cell, b: Cell) {
    exists path :: PathFromTo(F, path, a, b)
  }

  /** A path from b extends backwards over an open passage from a to b. */
  lemma PathPrepend(F: set<Passage>, a: Cell, path: seq<Cell>)
    requires IsPath(F, path) && Adjacent(a, path[0]) && Between(a, path[0]) in F
    ensures IsPath(F, [a] + path)
  {
    var q := [a] + path;
    forall k | 0 <= k < |q| - 1
      ensures Adjacent(q[k], q[k + 1]) && Between(q[k], q[k + 1]) in F
    {
      if k > 0 {
        assert q[k] == path[k - 1] && q[k + 1] == path[k];
      }
    }
  }

  function Reverse(s: seq<Cell>): (r: seq<Cell>)
    ensures |r| == |s| && forall k :: 0 <= k < |s| ==> r[k] == s[|s| - 1 - k]
  {
    if s == [] then [] else Reverse(s[1..]) + [s[0]]
  }

  lemma ReachableSymmetric(F: set<Passage>, a: Cell, b: Cell)
    requires Reachable(F, a, b)
    ensures Reachable(F, b, a)
  {
    var path :| PathFromTo(F, path, a, b);
    var r := Reverse(path);
    forall k | 0 <= k < |r| - 1
      ensures Adjacent(r[k], r[k + 1]) && Between(r[k], r[k + 1]) in F
    {
      var j := |path| - 2 - k;
      assert r[k] == path[j + 1] && r[k + 1] == path[j];
      BetweenSymmetric(path[j], path[j + 1]);
    }
    assert PathFromTo(F, r, b, a);
  }

  lemma ReachableTransitive(F: set<Passage>, a: Cell, b: Cell, c: Cell)
    requires Reachable(F, a, b) && Reachable(F, b, c)
    ensures Reachable(F, a, c)
  {
    var p1 :| PathFromTo(F, p1, a, b);
    var p2 :| PathFromTo(F, p2, b, c);
    var q := p1 + p2[1..];
    forall k | 0 <= k < |q| - 1
      ensures Adjacent(q[k], q[k + 1]) && Between(q[k], q[k + 1]) in F
    {
      if k < |p1| - 1 {
        assert q[k] == p1[k] && q[k + 1] == p1[k + 1];
      } else {
        var j := k - (|p1| - 1);
        assert q[k] == p2[j] && q[k + 1] == p2[j + 1];
      }
    }
    assert PathFromTo(F, q, a, c);
  }

  // ---------------------------------------------------------------------------
  // Bridges.  A set of passages has no cycle exactly when every passage in it
  // is a bridge: no path joins its two cells once it is removed.

  predicate Crosses(p: Passage, S: set<Cell>) {
    (Lo(p) in S) != (Hi(p) in S)
  }

  /** S is a cut that p is the only passage of F to cross. */
  ghost predicate IsBridgeCut(F: set<Passage>, p: Passage, S: set<Cell>) {
    && p in F
    && Crosses(p, S)
    && forall q :: q in F && q != p ==> !Crosses(q, S)
  }

  ghost predicate Acyclic(F: set<Passage>) {
    forall p :: p in F ==> !Reachable(F - {p}, Lo(p), Hi(p))
  }

  /** A path that avoids the only passage crossing a cut stays on one side of it. */
  lemma {:induction false} PathStaysOnOneSide(F: set<Passage>, p: Passage, S: set<Cell>, path: seq<Cell>)
    requires IsBridgeCut(F, p, S) && IsPath(F - {p}, path)
    ensures (path[0] in S) == (path[|path| - 1] in S)
    decreases |path|
  {
    if |path| > 1 {
      var q := Between(path[0], path[1]);
      assert q in F - {p};
      assert !Crosses(q, S);
      assert IsPath(F - {p}, path[1..]) by {
        forall k | 0 <= k < |path[1..]| - 1
          ensures Adjacent(path[1..][k], path[1..][k + 1]) && Between(path[1..][k], path[1..][k + 1]) in F - {p}
        {
          assert path[1..][k] == path[k + 1] && path[1..][k + 1] == path[k + 2];
        }
      }
      PathStaysOnOneSide(F, p, S, path[1..]);
    }
  }

  /** Passages that each have a bridge cut form a forest. */
  lemma BridgeCutsMeanAcyclic(F: set<Passage>)
    requires forall p :: p in F ==> exists S :: IsBridgeCut(F, p, S)
    ensures Acyclic(F)
  {
    forall p | p in F
      ensures !Reachable(F - {p}, Lo(p), Hi(p))
    {
      var S :| IsBridgeCut(F, p, S);
      if path :| PathFromTo(F - {p}, path, Lo(p), Hi(p)) {
        PathStaysOnOneSide(F, p, S, path);
        assert false;
      }
    }
  }

  // ---------------------------------------------------------------------------
  // Finished cells and spanning trees.

  /** All in-grid neighbours of v are in V: the carver has finished with v. */
  ghost predicate Finished(rows: int, cols: int, V: set<Cell>, v: Cell) {
    forall n :: n in Neighbours(v) && InGrid(rows, cols, n) ==> n in V
  }

  /** Every cell of N is finished with respect to V.  (The trigger keeps the
      solver from chasing neighbours of neighbours.) */
  ghost predicate AllFinished(rows: int, cols: int, V: set<Cell>, N: set<Cell>) {
    forall v {:trigger Finished(rows, cols, V, v)} :: v in N ==> Finished(rows, cols, V, v)
  }

  lemma {:induction false} WalkAlongRow(rows: int, cols: int, V: set<Cell>, r: int, c: int, c2: int)
    requires Cell(r, c) in V && 0 <= r < rows && 0 <= c < cols && 0 <= c2 < cols
    requires AllFinished(rows, cols, V, V)
    ensures Cell(r, c2) in V
    decreases if c < c2 then c2 - c else c - c2
  {
    assert Finished(rows, cols, V, Cell(r, c));
    if c < c2 {
      assert Cell(r, c + 1) in Neighbours(Cell(r, c));
      WalkAlongRow(rows, cols, V, r, c + 1, c2);
    } else if c2 < c {
      assert Cell(r, c - 1) in Neighbours(Cell(r, c));
      WalkAlongRow(rows, cols, V, r, c - 1, c2);
    }
  }

  lemma {:induction false} WalkAlongColumn(rows: int, cols: int, V: set<Cell>, r: int, c: int, r2: int)
    requires Cell(r, c) in V && 0 <= r < rows && 0 <= c < cols && 0 <= r2 < rows
    requires AllFinished(rows, cols, V, V)
    ensures Cell(r2, c) in V
    decreases if r < r2 then r2 - r else r - r2
  {
    assert Finished(rows, cols, V, Cell(r, c));
    if r < r2 {
      assert Cell(r + 1, c) in Neighbours(Cell(r, c));
      WalkAlongColumn(rows, cols, V, r + 1, c, r2);
    } else if r2 < r {
      assert Cell(r - 1, c) in Neighbours(Cell(r, c));
      WalkAlongColumn(rows, cols, V, r - 1, c, r2);
    }
  }

  /** A non-empty set of grid cells all of whose members are finished is the whole grid. */
  lemma FinishedSetIsWholeGrid(rows: int, cols: int, V: set<Cell>, s: Cell)
    requires s in V && V <= AllCells(rows, cols)
    requires AllFinished(rows, cols, V, V)
    ensures V == AllCells(rows, cols)
  {
    AllCellsAreInGrid(rows, cols, s);
    forall t | t in AllCells(rows, cols)
      ensures t in V
    {
      AllCellsAreInGrid(rows, cols, t);
      WalkAlongRow(rows, cols, V, s.row, s.col, t.col);
      WalkAlongColumn(rows, cols, V, s.row, t.col, t.row);
    }
  }

  /** The open passages form a spanning tree of the rows x cols grid graph:
      rows * cols - 1 of them, every two cells joined by a path, and no cycle. */
  ghost predicate SpanningTree(rows: int, cols: int, E: set<Passage>) {
    && E <= AllPassages(rows, cols)
    && |E| == rows * cols - 1
    && (forall a, b {:trigger Reachable(E, a, b)} :: a in AllCells(rows, cols) && b in AllCells(rows, cols) ==> Reachable(E, a, b))
    && Acyclic(E)
  }
}
