/** The ghost bookkeeping of a depth-first carve, on values: who visited each
    cell (its parent), in which order, which calls are still active, and why
    that bookkeeping means the open boundaries form a spanning tree. */
module Carving {
  import opened Grid
  import opened Wrappers

  // ---------------------------------------------------------------------------
  // Parents.

  /** The boundaries between each cell and its parent. */
  ghost function TreeEdges(parent: map<Cell, Cell>): set<Passage> {
    set v | v in parent && Adjacent(parent[v], v) :: Between(parent[v], v)
  }

  /** Every parent was visited strictly before its child. */
  ghost predicate Ranked(parent: map<Cell, Cell>, rank: map<Cell, nat>) {
    forall v {:trigger parent[v]} :: v in parent ==> v in rank && parent[v] in rank && rank[parent[v]] < rank[v]
  }

  /** V has been visited and E opened as a depth-first carve leaves them: each
      visited cell that was not a starting point has as parent the visited
      neighbour it was reached from, `rank` is the order of visiting (parents
      come first), and E holds exactly the boundaries from cells to their
      parents. */
  ghost predicate Forest(V: set<Cell>, E: set<Passage>, parent: map<Cell, Cell>, rank: map<Cell, nat>) {
    && rank.Keys == V
    && (forall v {:trigger rank[v]} :: v in rank ==> rank[v] < |V|)
    && (forall v {:trigger parent[v]} :: v in parent ==>
          v in V && parent[v] in V && Adjacent(parent[v], v) && rank[parent[v]] < rank[v])
    && E == TreeEdges(parent)
  }

  /** Visiting a starting cell: it gets no parent. */
  lemma ForestAddRoot(V: set<Cell>, E: set<Passage>, parent: map<Cell, Cell>, rank: map<Cell, nat>, u: Cell)
    requires Forest(V, E, parent, rank) && u !in V
    ensures Forest(V + {u}, E, parent, rank[u := |V|])
  {
  }

  /** Visiting u from its visited neighbour p: p becomes u's parent and the
      boundary between them is the one newly opened. */
  lemma ForestAddChild(V: set<Cell>, E: set<Passage>, parent: map<Cell, Cell>, rank: map<Cell, nat>, p: Cell, u: Cell)
    requires Forest(V, E, parent, rank) && u !in V && p in V && Adjacent(p, u)
    ensures Forest(V + {u}, E + {Between(p, u)}, parent[u := p], rank[u := |V|])
  {
    var parent' := parent[u := p];
    assert TreeEdges(parent') == TreeEdges(parent) + {Between(p, u)} by {
      forall q | q in TreeEdges(parent') ensures q in TreeEdges(parent) + {Between(p, u)} {
        var v :| v in parent' && Adjacent(parent'[v], v) && q == Between(parent'[v], v);
        if v != u {
          assert v in parent && q == Between(parent[v], v);
        }
      }
      forall q | q in TreeEdges(parent) ensures q in TreeEdges(parent') {
        var v :| v in parent && Adjacent(parent[v], v) && q == Between(parent[v], v);
        assert v != u && parent'[v] == parent[v];
      }
      assert parent'[u] == p;
    }
  }

  /** Both cells of an open boundary are visited. */
  lemma TreeEdgeEnds(V: set<Cell>, E: set<Passage>, parent: map<Cell, Cell>, rank: map<Cell, nat>, q: Passage)
    requires Forest(V, E, parent, rank) && q in E
    ensures Lo(q) in V && Hi(q) in V
  {
    var v :| v in parent && Adjacent(parent[v], v) && q == Between(parent[v], v);
  }

  // ---------------------------------------------------------------------------
  // Counting: one boundary per child.

  /** A boundary names its child: the end visited later. */
  lemma EdgeNamesChild(V: set<Cell>, E: set<Passage>, parent: map<Cell, Cell>, rank: map<Cell, nat>, v: Cell, w: Cell)
    requires Forest(V, E, parent, rank) && v in parent && w in parent
    requires Between(parent[v], v) == Between(parent[w], w)
    ensures v == w
  {
    assert Adjacent(parent[v], v) && Adjacent(parent[w], w);
  }

  /** The boundaries of a set K of children are as many as K. */
  lemma {:induction false} EdgesOfChildren(V: set<Cell>, E: set<Passage>, parent: map<Cell, Cell>, rank: map<Cell, nat>, K: set<Cell>)
    requires Forest(V, E, parent, rank) && K <= parent.Keys
    ensures |set v | v in K :: Between(parent[v], v)| == |K|
    decreases |K|
  {
    if K != {} {
      var x :| x in K;
      var K' := K - {x};
      EdgesOfChildren(V, E, parent, rank, K');
      var img := set v | v in K :: Between(parent[v], v);
      var img' := set v | v in K' :: Between(parent[v], v);
      assert img == img' + {Between(parent[x], x)};
      if Between(parent[x], x) in img' {
        var y :| y in K' && Between(parent[y], y) == Between(parent[x], x);
        EdgeNamesChild(V, E, parent, rank, x, y);
      }
    }
  }

  /** There are exactly as many open boundaries as cells with a parent. */
  lemma EdgeCount(V: set<Cell>, E: set<Passage>, parent: map<Cell, Cell>, rank: map<Cell, nat>)
    requires Forest(V, E, parent, rank)
    ensures |E| == |parent.Keys|
  {
    EdgesOfChildren(V, E, parent, rank, parent.Keys);
    assert E == set v | v in parent.Keys :: Between(parent[v], v);
  }

  // ---------------------------------------------------------------------------
  // Connectivity: every cell walks up to a starting cell.

  /** Following parents from v leads to the only starting cell. */
  lemma {:induction false} PathToRoot(V: set<Cell>, E: set<Passage>, parent: map<Cell, Cell>, rank: map<Cell, nat>,
                                      root: Cell, v: Cell) returns (path: seq<Cell>)
    requires Forest(V, E, parent, rank) && parent.Keys == V - {root} && v in V
    ensures PathFromTo(E, path, v, root)
    decreases rank[v]
  {
    if v == root {
      path := [v];
    } else {
      var p := parent[v];
      assert Adjacent(p, v) && rank[p] < rank[v];
      var rest := PathToRoot(V, E, parent, rank, root, p);
      BetweenSymmetric(p, v);
      assert Between(p, v) in E;
      PathPrepend(E, v, rest);
      path := [v] + rest;
    }
  }

  // ---------------------------------------------------------------------------
  // Acyclicity: the boundary above each child is a bridge.

  /** w lies in the part of the carve below v: v is w or one of w's ancestors. */
  ghost predicate Below(parent: map<Cell, Cell>, rank: map<Cell, nat>, w: Cell, v: Cell)
    requires Ranked(parent, rank) && w in rank
    decreases rank[w]
  {
    w == v || (w in parent && Below(parent, rank, parent[w], v))
  }

  lemma {:induction false} BelowRank(parent: map<Cell, Cell>, rank: map<Cell, nat>, w: Cell, v: Cell)
    requires Ranked(parent, rank) && w in rank && v in rank && Below(parent, rank, w, v)
    ensures rank[v] <= rank[w]
    decreases rank[w]
  {
    if w != v {
      BelowRank(parent, rank, parent[w], v);
    }
  }

  ghost function Descendants(V: set<Cell>, parent: map<Cell, Cell>, rank: map<Cell, nat>, v: Cell): set<Cell>
    requires Ranked(parent, rank) && V <= rank.Keys
  {
    set w | w in V && Below(parent, rank, w, v)
  }

  /** The cells below a child v are a cut that only the boundary between v and
      its parent crosses. */
  lemma ChildCut(V: set<Cell>, E: set<Passage>, parent: map<Cell, Cell>, rank: map<Cell, nat>, v: Cell)
    requires Forest(V, E, parent, rank) && v in parent
    ensures IsBridgeCut(E, Between(parent[v], v), Descendants(V, parent, rank, v))
  {
    var S := Descendants(V, parent, rank, v);
    var e := Between(parent[v], v);
    assert Adjacent(parent[v], v);
    assert e in E;
    assert v in S;
    if parent[v] in S {
      BelowRank(parent, rank, parent[v], v);
    }
    forall q | q in E && q != e ensures !Crosses(q, S) {
      var w :| w in parent && Adjacent(parent[w], w) && q == Between(parent[w], w);
      assert w != v;
      assert Below(parent, rank, w, v) == Below(parent, rank, parent[w], v);
      assert (w in S) == (parent[w] in S);
    }
  }

  /** A carve's boundaries close no cycle. */
  lemma ForestIsAcyclic(V: set<Cell>, E: set<Passage>, parent: map<Cell, Cell>, rank: map<Cell, nat>)
    requires Forest(V, E, parent, rank)
    ensures Acyclic(E)
  {
    forall p | p in E ensures exists S :: IsBridgeCut(E, p, S) {
      var v :| v in parent && Adjacent(parent[v], v) && p == Between(parent[v], v);
      ChildCut(V, E, parent, rank, v);
    }
    BridgeCutsMeanAcyclic(E);
  }

  /** A carve from a single start cell that has reached the whole grid opened
      a spanning tree. */
  lemma ForestIsSpanningTree(rows: nat, cols: nat, V: set<Cell>, E: set<Passage>,
                             parent: map<Cell, Cell>, rank: map<Cell, nat>, root: Cell)
    requires Forest(V, E, parent, rank)
    requires V == AllCells(rows, cols) && root in V && parent.Keys == V - {root}
    requires E <= AllPassages(rows, cols)
    ensures SpanningTree(rows, cols, E)
  {
    CellCount(rows, cols);
    EdgeCount(V, E, parent, rank);
    ForestIsAcyclic(V, E, parent, rank);
    forall a, b | a in AllCells(rows, cols) && b in AllCells(rows, cols)
      ensures Reachable(E, a, b)
    {
      var pa := PathToRoot(V, E, parent, rank, root, a);
      var pb := PathToRoot(V, E, parent, rank, root, b);
      ReachableSymmetric(E, b, root);
      ReachableTransitive(E, a, root, b);
    }
  }

  // ---------------------------------------------------------------------------
  // The stack of active calls.

  /** Every visited cell whose call has returned is finished. */
  ghost predicate Explored(rows: int, cols: int, V: set<Cell>, active: set<Cell>) {
    && active <= V
    && forall v {:trigger Finished(rows, cols, V, v)} :: v in V && v !in active ==> Finished(rows, cols, V, v)
  }

  /** Entering the call for a new cell. */
  lemma ExploredEnter(rows: int, cols: int, V: set<Cell>, active: set<Cell>, u: Cell)
    requires Explored(rows, cols, V, active)
    ensures Explored(rows, cols, V + {u}, active + {u})
  {
    forall v | v in V + {u} && v !in active + {u} ensures Finished(rows, cols, V + {u}, v) {
      assert Finished(rows, cols, V, v);
    }
  }

  /** Leaving the call for u once all its neighbours are visited. */
  lemma ExploredLeave(rows: int, cols: int, V: set<Cell>, active: set<Cell>, u: Cell)
    requires Explored(rows, cols, V, active) && Finished(rows, cols, V, u)
    ensures Explored(rows, cols, V, active - {u})
  {
    forall v | v in V && v !in active - {u} ensures Finished(rows, cols, V, v) {
      if v != u {
        assert v !in active;
      }
    }
  }

  /** Once no call is active, a carve that visited some grid cell visited them all. */
  lemma ExploredIsWholeGrid(rows: int, cols: int, V: set<Cell>, s: Cell)
    requires Explored(rows, cols, V, {}) && s in V && V <= AllCells(rows, cols)
    ensures V == AllCells(rows, cols)
  {
    forall v | v in V ensures Finished(rows, cols, V, v) {
      assert v !in {};
    }
    FinishedSetIsWholeGrid(rows, cols, V, s);
  }

  // ---------------------------------------------------------------------------
  // The whole record of a search.

  /** What a depth-first carve remembers besides the visited cells and the
      open boundaries: the cells whose calls are still active, the cell each
      visited cell was entered from, the order of visiting, and the cells
      where a search was started. */
  datatype Record = Record(active: set<Cell>, parent: map<Cell, Cell>, rank: map<Cell, nat>, roots: set<Cell>)

  const Empty := Record({}, map[], map[], {})

  /** V visited and E opened by carves started at `r.roots`, with the calls
      in `r.active` still running. */
  ghost predicate Search(rows: int, cols: int, V: set<Cell>, E: set<Passage>, r: Record) {
    && Forest(V, E, r.parent, r.rank)
    && r.roots <= V
    && r.parent.Keys == V - r.roots
    && Explored(rows, cols, V, r.active)
  }

  /** The boundaries opened apart from the one u is being entered over. */
  function Without(E: set<Passage>, from: Option<Cell>, u: Cell): set<Passage>
    requires from.Some? ==> Adjacent(from.value, u)
  {
    if from.Some? then E - {Between(from.value, u)} else E
  }

  /** About to enter u: either as a new start, or from its visited neighbour
      `from` once the boundary between them has been opened.  Apart from that
      boundary, V and E are a search. */
  ghost predicate Arriving(rows: int, cols: int, V: set<Cell>, E: set<Passage>, r: Record, from: Option<Cell>, u: Cell) {
    && (from.Some? ==> Adjacent(from.value, u) && from.value in V && u !in V && Between(from.value, u) in E)
    && Search(rows, cols, V, Without(E, from, u), r)
  }

  /** The record once u has been entered, from its neighbour `from` or as a
      new start. */
  function Enter(r: Record, V: set<Cell>, u: Cell, from: Option<Cell>): Record {
    Record(r.active + {u},
           if from.Some? then r.parent[u := from.value] else r.parent,
           r.rank[u := |V|],
           if from.Some? then r.roots else r.roots + {u})
  }

  /** Leaving a cell just entered restores the active calls. */
  lemma EnterThenLeave(r: Record, V: set<Cell>, u: Cell, from: Option<Cell>)
    requires u !in r.active
    ensures Enter(r, V, u, from).active - {u} == r.active
  {
  }

  lemma SearchStart(rows: int, cols: int)
    ensures Search(rows, cols, {}, {}, Empty)
  {
  }

  /** Entering an unvisited cell keeps a search. */
  lemma Arrive(rows: int, cols: int, V: set<Cell>, E: set<Passage>, r: Record, from: Option<Cell>, u: Cell)
    requires Arriving(rows, cols, V, E, r, from, u) && u !in V
    ensures Search(rows, cols, V + {u}, E, Enter(r, V, u, from))
  {
    if from.Some? {
      var p := from.value;
      ForestAddChild(V, E - {Between(p, u)}, r.parent, r.rank, p, u);
      assert E - {Between(p, u)} + {Between(p, u)} == E;
    } else {
      ForestAddRoot(V, E, r.parent, r.rank, u);
    }
    ExploredEnter(rows, cols, V, r.active, u);
  }

  /** Opening the boundary from a visited cell to an unvisited neighbour
      opens a boundary that was closed, and leaves the search pending. */
  lemma OpenTowards(rows: int, cols: int, V: set<Cell>, E: set<Passage>, r: Record, p: Cell, u: Cell)
    requires Search(rows, cols, V, E, r) && Adjacent(p, u) && p in V && u !in V
    ensures Between(p, u) !in E
    ensures Arriving(rows, cols, V, E + {Between(p, u)}, r, Some(p), u)
  {
    if Between(p, u) in E {
      TreeEdgeEnds(V, E, r.parent, r.rank, Between(p, u));
    }
    assert E + {Between(p, u)} - {Between(p, u)} == E;
  }

  /** Returning from the call for u once all its neighbours are visited keeps a search. */
  lemma Leave(rows: int, cols: int, V: set<Cell>, E: set<Passage>, r: Record, u: Cell)
    requires Search(rows, cols, V, E, r) && Finished(rows, cols, V, u)
    ensures Search(rows, cols, V, E, r.(active := r.active - {u}))
  {
    ExploredLeave(rows, cols, V, r.active, u);
  }

  /** A finished carve from the single start s that stayed in the grid has
      visited every cell and opened a spanning tree. */
  lemma SearchIsSpanningTree(rows: int, cols: int, V: set<Cell>, E: set<Passage>, r: Record, s: Cell)
    requires Search(rows, cols, V, E, r) && r.active == {} && r.roots == {s} && s in V
    requires V <= AllCells(rows, cols) && E <= AllPassages(rows, cols)
    ensures V == AllCells(rows, cols)
    ensures SpanningTree(rows, cols, E)
  {
    ExploredIsWholeGrid(rows, cols, V, s);
    ForestIsSpanningTree(rows, cols, V, E, r.parent, r.rank, s);
  }
}
