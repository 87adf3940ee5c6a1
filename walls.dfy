/** The static bodies `init` adds once the carve is done (script.js:44-49,
    103-132): four perimeter walls, then one wall for every entry of
    `horizontals` that is still false, row by row, then one for every entry
    of `verticals` that is still false, row by row.  A wall is named by the
    boundary it stands on, not by the rectangle's pixel coordinates. */
module Walls {
  import opened Grid

  datatype Side = Top | Bottom | LeftSide | RightSide

  /** A `wall` body: one of the four borders, or an interior wall on the
      boundary `p` (between Lo(p) and Hi(p)). */
  datatype Wall = Border(side: Side) | Inner(p: Passage)

  /** The borders in the order init creates them: top, bottom, left, right. */
  function Borders(): seq<Wall> {
    [Border(Top), Border(Bottom), Border(LeftSide), Border(RightSide)]
  }

  /** Entry [i][k] of `verticals` (when `vertical`) or of `horizontals`. */
  function At(vertical: bool, i: int, k: int): Passage {
    if vertical then Vertical(i, k) else Horizontal(i, k)
  }

  /** Entries [i][0], ..., [i][m - 1] of one matrix row, in the order `row.map` visits them. */
  function Row(vertical: bool, i: int, m: int): seq<Passage>
    decreases m
  {
    if m <= 0 then [] else Row(vertical, i, m - 1) + [At(vertical, i, m - 1)]
  }

  /** Rows 0, ..., n - 1 of a matrix with m columns, in the order the outer `map` visits them. */
  function Rows(vertical: bool, n: int, m: int): seq<Passage>
    decreases n
  {
    if n <= 0 then [] else Rows(vertical, n - 1, m) + Row(vertical, n - 1, m)
  }

  /** One wall for each boundary of ps that is not open, in the order of ps. */
  function Closed(ps: seq<Passage>, open: set<Passage>): seq<Wall>
    decreases |ps|
  {
    if |ps| == 0 then []
    else Closed(ps[..|ps| - 1], open) + (if ps[|ps| - 1] in open then [] else [Inner(ps[|ps| - 1])])
  }

  /** The walls of a rows x cols maze whose open boundaries are `open`, in emission order. */
  function Walls(rows: int, cols: int, open: set<Passage>): seq<Wall> {
    Borders() + Closed(Rows(false, rows - 1, cols), open) + Closed(Rows(true, rows, cols - 1), open)
  }

  predicate Distinct<T(==)>(s: seq<T>) {
    forall a, b :: 0 <= a < b < |s| ==> s[a] != s[b]
  }

  // ---------------------------------------------------------------------------
  // Emission.

  lemma {:induction false} ClosedAppend(ps: seq<Passage>, qs: seq<Passage>, open: set<Passage>)
    ensures Closed(ps + qs, open) == Closed(ps, open) + Closed(qs, open)
    decreases |qs|
  {
    if |qs| == 0 {
      assert ps + qs == ps;
    } else {
      var q := qs[..|qs| - 1];
      ClosedAppend(ps, q, open);
      assert (ps + qs)[..|ps + qs| - 1] == ps + q;
    }
  }

  lemma ClosedStep(ps: seq<Passage>, p: Passage, open: set<Passage>)
    ensures Closed(ps + [p], open) == Closed(ps, open) + (if p in open then [] else [Inner(p)])
  {
    assert (ps + [p])[..|ps|] == ps;
  }

  /** One more entry of a row: a wall is appended exactly when its boundary is closed. */
  lemma RowStep(walls0: seq<Wall>, walls: seq<Wall>, vertical: bool, i: int, k: nat, open: set<Passage>)
    requires walls == walls0 + Closed(Row(vertical, i, k), open)
    ensures (if At(vertical, i, k) in open then walls else walls + [Inner(At(vertical, i, k))])
         == walls0 + Closed(Row(vertical, i, k + 1), open)
  {
    ClosedStep(Row(vertical, i, k), At(vertical, i, k), open);
  }

  /** `row.map((open, k) => ...)` for row i of a matrix that mirrors `open`:
      one wall is appended for each false entry, left to right. */
  method EmitRow(a: array2<bool>, vertical: bool, ghost open: set<Passage>, i: int, walls0: seq<Wall>)
    returns (walls: seq<Wall>)
    requires 0 <= i < a.Length0
    requires forall c :: 0 <= c < a.Length1 ==> (a[i, c] <==> At(vertical, i, c) in open)
    ensures walls == walls0 + Closed(Row(vertical, i, a.Length1), open)
  {
    walls := walls0;
    for k := 0 to a.Length1
      invariant walls == walls0 + Closed(Row(vertical, i, k), open)
    {
      RowStep(walls0, walls, vertical, i, k, open);
      if !a[i, k] {
        walls := walls + [Inner(At(vertical, i, k))];
      }
    }
  }

  /** One more row of a matrix: its walls follow those of the rows before. */
  lemma RowsStep(walls0: seq<Wall>, walls: seq<Wall>, vertical: bool, i: nat, m: int, open: set<Passage>)
    requires walls == walls0 + Closed(Rows(vertical, i, m), open)
    ensures walls + Closed(Row(vertical, i, m), open) == walls0 + Closed(Rows(vertical, i + 1, m), open)
  {
    ClosedAppend(Rows(vertical, i, m), Row(vertical, i, m), open);
  }

  /** `matrix.map((row, i) => ...)` over a matrix that mirrors `open`: the
      walls of its false entries, row by row. */
  method EmitMatrix(a: array2<bool>, vertical: bool, ghost open: set<Passage>, walls0: seq<Wall>)
    returns (walls: seq<Wall>)
    requires forall r, c :: 0 <= r < a.Length0 && 0 <= c < a.Length1 ==> (a[r, c] <==> At(vertical, r, c) in open)
    ensures walls == walls0 + Closed(Rows(vertical, a.Length0, a.Length1), open)
  {
    walls := walls0;
    for i := 0 to a.Length0
      invariant walls == walls0 + Closed(Rows(vertical, i, a.Length1), open)
    {
      RowsStep(walls0, walls, vertical, i, a.Length1, open);
      walls := EmitRow(a, vertical, open, i, walls);
    }
  }

  /** The two wall-emission loops (script.js:103-132), after the four
      borders (script.js:44-49), over the `horizontals` and `verticals`
      matrices of a rows x cols maze that mirror its open boundaries: the
      walls the program adds are exactly Walls(rows, cols, open). */
  method EmitWalls(horizontals: array2<bool>, verticals: array2<bool>, ghost open: set<Passage>, rows: int, cols: int)
    returns (walls: seq<Wall>)
    requires horizontals.Length0 == rows - 1 && horizontals.Length1 == cols
    requires verticals.Length0 == rows && verticals.Length1 == cols - 1
    requires forall r, c :: 0 <= r < rows - 1 && 0 <= c < cols ==> (horizontals[r, c] <==> Horizontal(r, c) in open)
    requires forall r, c :: 0 <= r < rows && 0 <= c < cols - 1 ==> (verticals[r, c] <==> Vertical(r, c) in open)
    ensures walls == Walls(rows, cols, open)
  {
    walls := EmitMatrix(horizontals, false, open, Borders());
    walls := EmitMatrix(verticals, true, open, walls);
  }

  // ---------------------------------------------------------------------------
  // Which walls there are.

  lemma {:induction false} InRow(vertical: bool, i: int, m: int, p: Passage)
    ensures p in Row(vertical, i, m) <==> exists k :: 0 <= k < m && p == At(vertical, i, k)
    decreases m
  {
    if m > 0 {
      InRow(vertical, i, m - 1, p);
    }
  }

  lemma {:induction false} InRows(vertical: bool, n: int, m: int, p: Passage)
    ensures p in Rows(vertical, n, m) <==> (p.Vertical? == vertical && 0 <= p.row < n && 0 <= p.col < m)
    decreases n
  {
    if n > 0 {
      InRows(vertical, n - 1, m, p);
      InRow(vertical, n - 1, m, p);
      if p.Vertical? == vertical && p.row == n - 1 && 0 <= p.col < m {
        assert p == At(vertical, n - 1, p.col);
      }
    }
  }

  lemma {:induction false} InClosed(ps: seq<Passage>, open: set<Passage>, w: Wall)
    ensures w in Closed(ps, open) <==> w.Inner? && w.p in ps && w.p !in open
    decreases |ps|
  {
    if |ps| > 0 {
      var q := ps[..|ps| - 1];
      InClosed(q, open, w);
      assert ps == q + [ps[|ps| - 1]];
    }
  }

  lemma BorderListed(side: Side)
    ensures Border(side) in Borders()
  {
    match side
    case Top => assert Borders()[0] == Border(Top);
    case Bottom => assert Borders()[1] == Border(Bottom);
    case LeftSide => assert Borders()[2] == Border(LeftSide);
    case RightSide => assert Borders()[3] == Border(RightSide);
  }

  /** A wall stands on the perimeter or on an in-grid boundary that the carve
      left closed; every closed boundary gets one (script.js:105, 121). */
  lemma WallsAreClosedBoundaries(rows: int, cols: int, open: set<Passage>, w: Wall)
    ensures w in Walls(rows, cols, open) <==>
      w.Border? || (w.Inner? && PassageInGrid(rows, cols, w.p) && w.p !in open)
  {
    var hs, vs := Closed(Rows(false, rows - 1, cols), open), Closed(Rows(true, rows, cols - 1), open);
    assert Walls(rows, cols, open) == Borders() + hs + vs;
    InClosed(Rows(false, rows - 1, cols), open, w);
    InClosed(Rows(true, rows, cols - 1), open, w);
    if w.Inner? {
      InRows(false, rows - 1, cols, w.p);
      InRows(true, rows, cols - 1, w.p);
    } else {
      BorderListed(w.side);
    }
  }

  // ---------------------------------------------------------------------------
  // No wall twice.

  lemma DistinctConcat<T>(s: seq<T>, t: seq<T>)
    requires Distinct(s) && Distinct(t) && forall x :: x in s ==> x !in t
    ensures Distinct(s + t)
  {
    forall a, b | 0 <= a < b < |s + t| ensures (s + t)[a] != (s + t)[b] {
      if a < |s| && |s| <= b {
        assert (s + t)[a] in s && (s + t)[b] == t[b - |s|];
      }
    }
  }

  lemma {:induction false} RowDistinct(vertical: bool, i: int, m: int)
    ensures Distinct(Row(vertical, i, m))
    decreases m
  {
    if m > 0 {
      RowDistinct(vertical, i, m - 1);
      InRow(vertical, i, m - 1, At(vertical, i, m - 1));
      DistinctConcat(Row(vertical, i, m - 1), [At(vertical, i, m - 1)]);
    }
  }

  lemma {:induction false} RowsDistinct(vertical: bool, n: int, m: int)
    ensures Distinct(Rows(vertical, n, m))
    decreases n
  {
    if n > 0 {
      RowsDistinct(vertical, n - 1, m);
      RowDistinct(vertical, n - 1, m);
      var prev := Rows(vertical, n - 1, m);
      forall p | p in prev ensures p !in Row(vertical, n - 1, m) {
        InRows(vertical, n - 1, m, p);
        InRow(vertical, n - 1, m, p);
      }
      DistinctConcat(Rows(vertical, n - 1, m), Row(vertical, n - 1, m));
    }
  }

  lemma {:induction false} ClosedDistinct(ps: seq<Passage>, open: set<Passage>)
    requires Distinct(ps)
    ensures Distinct(Closed(ps, open))
    decreases |ps|
  {
    if |ps| > 0 {
      var q, p := ps[..|ps| - 1], ps[|ps| - 1];
      assert Distinct(q);
      ClosedDistinct(q, open);
      InClosed(q, open, Inner(p));
      assert p !in q;
      DistinctConcat(Closed(q, open), if p in open then [] else [Inner(p)]);
    }
  }

  /** The walls from one matrix stand on boundaries of that matrix's kind. */
  lemma ClosedKind(vertical: bool, n: int, m: int, open: set<Passage>, w: Wall)
    requires w in Closed(Rows(vertical, n, m), open)
    ensures w.Inner? && w.p.Vertical? == vertical
  {
    InClosed(Rows(vertical, n, m), open, w);
    InRows(vertical, n, m, w.p);
  }

  lemma DistinctThree<T>(a: seq<T>, b: seq<T>, c: seq<T>)
    requires Distinct(a) && Distinct(b) && Distinct(c)
    requires forall x :: x in b ==> x !in a
    requires forall x :: x in c ==> x !in a && x !in b
    ensures Distinct(a + b + c)
  {
    DistinctConcat(a, b);
    DistinctConcat(a + b, c);
  }

  /** Each matrix lists every boundary once, so its walls are distinct. */
  lemma ClosedRowsDistinct(vertical: bool, n: int, m: int, open: set<Passage>)
    ensures Distinct(Closed(Rows(vertical, n, m), open))
  {
    RowsDistinct(vertical, n, m);
    ClosedDistinct(Rows(vertical, n, m), open);
  }

  /** The borders, the horizontal walls and the vertical walls have nothing in common. */
  lemma KindsApart(hs: seq<Wall>, vs: seq<Wall>, rows: int, cols: int, open: set<Passage>)
    requires hs == Closed(Rows(false, rows - 1, cols), open) && vs == Closed(Rows(true, rows, cols - 1), open)
    ensures forall w :: w in hs ==> w !in Borders()
    ensures forall w :: w in vs ==> w !in Borders() && w !in hs
  {
    forall w | w in hs ensures w !in Borders() {
      ClosedKind(false, rows - 1, cols, open, w);
    }
    forall w | w in vs ensures w !in Borders() && w !in hs {
      ClosedKind(true, rows, cols - 1, open, w);
      if w in hs {
        ClosedKind(false, rows - 1, cols, open, w);
      }
    }
  }

  /** No boundary gets two walls. */
  lemma WallsDistinct(rows: int, cols: int, open: set<Passage>)
    ensures Distinct(Walls(rows, cols, open))
  {
    var hs, vs := Closed(Rows(false, rows - 1, cols), open), Closed(Rows(true, rows, cols - 1), open);
    ClosedRowsDistinct(false, rows - 1, cols, open);
    ClosedRowsDistinct(true, rows, cols - 1, open);
    KindsApart(hs, vs, rows, cols, open);
    DistinctThree(Borders(), hs, vs);
  }

  // ---------------------------------------------------------------------------
  // How many walls.

  function Elements<T>(s: seq<T>): set<T> {
    set x | x in s
  }

  lemma {:induction false} DistinctCard<T>(s: seq<T>)
    requires Distinct(s)
    ensures |Elements(s)| == |s|
    decreases |s|
  {
    if |s| > 0 {
      var q := s[..|s| - 1];
      assert Distinct(q);
      DistinctCard(q);
      assert s == q + [s[|s| - 1]];
      assert s[|s| - 1] !in q;
      assert Elements(s) == Elements(q) + {s[|s| - 1]};
    }
  }

  function InnerWalls(S: set<Passage>): set<Wall> {
    set p | p in S :: Inner(p)
  }

  lemma {:induction false} InnerWallsCount(S: set<Passage>)
    ensures |InnerWalls(S)| == |S|
    decreases |S|
  {
    if S != {} {
      var x :| x in S;
      InnerWallsCount(S - {x});
      assert InnerWalls(S) == InnerWalls(S - {x}) + {Inner(x)};
    }
  }

  /** The set of walls is the four borders plus one per closed in-grid boundary. */
  lemma WallElements(rows: int, cols: int, open: set<Passage>)
    ensures Elements(Walls(rows, cols, open)) ==
      {Border(Top), Border(Bottom), Border(LeftSide), Border(RightSide)} + InnerWalls(AllPassages(rows, cols) - open)
  {
    var ws := Walls(rows, cols, open);
    var closed := AllPassages(rows, cols) - open;
    var bs := {Border(Top), Border(Bottom), Border(LeftSide), Border(RightSide)};
    forall w | w in Elements(ws) ensures w in bs + InnerWalls(closed) {
      WallsAreClosedBoundaries(rows, cols, open, w);
      match w
      case Border(side) =>
        assert side == Top || side == Bottom || side == LeftSide || side == RightSide;
      case Inner(p) =>
        AllPassagesAreInGrid(rows, cols, p);
    }
    forall w | w in InnerWalls(closed) ensures w in Elements(ws) {
      var p :| p in closed && w == Inner(p);
      AllPassagesAreInGrid(rows, cols, p);
      WallsAreClosedBoundaries(rows, cols, open, w);
    }
    forall side: Side ensures Border(side) in Elements(ws) {
      WallsAreClosedBoundaries(rows, cols, open, Border(side));
    }
  }

  lemma FourBorders()
    ensures |{Border(Top), Border(Bottom), Border(LeftSide), Border(RightSide)}| == 4
  {
  }

  lemma DisjointUnionCard<T>(A: set<T>, B: set<T>)
    requires A !! B
    ensures |A + B| == |A| + |B|
  {
  }

  lemma DifferenceCard<T>(A: set<T>, B: set<T>)
    requires B <= A
    ensures |A - B| == |A| - |B|
  {
    assert A == (A - B) + B;
  }

  /** The walls are the four borders plus one per closed in-grid boundary. */
  lemma WallCount(rows: int, cols: int, open: set<Passage>)
    requires open <= AllPassages(rows, cols)
    ensures |Walls(rows, cols, open)| == 4 + |AllPassages(rows, cols)| - |open|
  {
    var ws := Walls(rows, cols, open);
    var closed := AllPassages(rows, cols) - open;
    var bs := {Border(Top), Border(Bottom), Border(LeftSide), Border(RightSide)};
    WallsDistinct(rows, cols, open);
    DistinctCard(ws);
    WallElements(rows, cols, open);
    InnerWallsCount(closed);
    FourBorders();
    DisjointUnionCard(bs, InnerWalls(closed));
    DifferenceCard(AllPassages(rows, cols), open);
  }

  /** After a full carve, 4 + rows * (cols - 1) + (rows - 1) * cols - (rows * cols - 1)
      walls are emitted: 92 on the 9 x 12 board. */
  lemma CarvedWallCount(rows: int, cols: int, open: set<Passage>)
    requires rows >= 1 && cols >= 1 && SpanningTree(rows, cols, open)
    ensures |Walls(rows, cols, open)| == 4 + rows * (cols - 1) + (rows - 1) * cols - (rows * cols - 1)
  {
    WallCount(rows, cols, open);
    PassageCount(rows, cols);
  }
}
