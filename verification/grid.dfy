/**
 The maze's grid: a fixed rectangle of cells stored column by column and
 indexed [col][row], each cell carrying four wall flags and a visited flag.
 Besides the record itself this module defines the vocabulary the two
 algorithms are specified in: directions, the double-sided "passable" test,
 the set of open internal edges, and walks through open walls.
 */
module Grid {

  /** One square of the maze. */
  datatype Cell = Cell(
    hasLeftWall: bool,
    hasTopWall: bool,
    hasRightWall: bool,
    hasBottomWall: bool,
    visited: bool)

  /** A newly built cell: all four walls standing, not visited. */
  const FreshCell: Cell := Cell(true, true, true, true, false)

  /** A grid position; `col` is the first index, `row` the second. */
  datatype Pos = Pos(col: int, row: int)

  datatype Dir = Left | Up | Right | Down

  /** The order in which both algorithms look at a cell's neighbours. */
  const Directions: seq<Dir> := [Left, Up, Right, Down]

  /** Rank of a direction in that order. */
  function DirIndex(d: Dir): nat {
    match d
    case Left => 0
    case Up => 1
    case Right => 2
    case Down => 3
  }

  /** Every direction occurs in the order, at its rank. */
  lemma DirectionsCover(d: Dir)
    ensures DirIndex(d) < |Directions| && Directions[DirIndex(d)] == d
  {
  }

  function Opposite(d: Dir): Dir {
    match d
    case Left => Right
    case Up => Down
    case Right => Left
    case Down => Up
  }

  /** The position one step from `p` in direction `d` (rows grow downwards). */
  function Neighbor(p: Pos, d: Dir): Pos {
    match d
    case Left => Pos(p.col - 1, p.row)
    case Up => Pos(p.col, p.row - 1)
    case Right => Pos(p.col + 1, p.row)
    case Down => Pos(p.col, p.row + 1)
  }

  /** The direction in which `q` lies as seen from `p`, judged the way the
      carving code judges it: by comparing coordinates. */
  function DirTo(p: Pos, q: Pos): Dir {
    if q.col < p.col then Left
    else if q.row < p.row then Up
    else if q.col > p.col then Right
    else Down
  }

  /** `p` and `q` share a side. */
  predicate Adjacent(p: Pos, q: Pos) {
    q == Neighbor(p, DirTo(p, q))
  }

  lemma NeighborIsAdjacent(p: Pos, d: Dir)
    ensures Adjacent(p, Neighbor(p, d))
    ensures DirTo(p, Neighbor(p, d)) == d
    ensures Neighbor(Neighbor(p, d), Opposite(d)) == p
  {
  }

  function HasWall(c: Cell, d: Dir): bool {
    match d
    case Left => c.hasLeftWall
    case Up => c.hasTopWall
    case Right => c.hasRightWall
    case Down => c.hasBottomWall
  }

  /** The cell with its wall on side `d` taken down. */
  function RemoveWall(c: Cell, d: Dir): (c': Cell)
    ensures !HasWall(c', d)
    ensures forall e :: e != d ==> HasWall(c', e) == HasWall(c, e)
    ensures c'.visited == c.visited
  {
    match d
    case Left => c.(hasLeftWall := false)
    case Up => c.(hasTopWall := false)
    case Right => c.(hasRightWall := false)
    case Down => c.(hasBottomWall := false)
  }

  /** The grid: `cols` columns of `rows` cells each. */
  datatype Maze = Maze(cols: nat, rows: nat, cells: seq<seq<Cell>>) {

    predicate Valid() {
      && |cells| == cols
      && forall i :: 0 <= i < |cells| ==> |cells[i]| == rows
    }

    predicate InBounds(p: Pos) {
      0 <= p.col < cols && 0 <= p.row < rows
    }

    function At(p: Pos): Cell
      requires Valid() && InBounds(p)
    {
      cells[p.col][p.row]
    }

    /** The grid with the cell at `p` replaced by `c`. */
    function Update(p: Pos, c: Cell): (m: Maze)
      requires Valid() && InBounds(p)
      ensures m.Valid() && m.cols == cols && m.rows == rows
      ensures m.At(p) == c
      ensures forall q :: InBounds(q) && q != p ==> m.At(q) == At(q)
    {
      this.(cells := cells[p.col := cells[p.col][p.row := c]])
    }

    /** The cell the solver starts from. */
    function Entrance(): Pos {
      Pos(0, 0)
    }

    /** The cell the solver is looking for. */
    function Exit(): Pos {
      Pos(cols - 1, rows - 1)
    }
  }

  /** The grid with the wall of the cell at `p` on side `d` taken down. */
  function OpenSide(m: Maze, p: Pos, d: Dir): (r: Maze)
    requires m.Valid() && m.InBounds(p)
    ensures r.Valid() && r.cols == m.cols && r.rows == m.rows
    ensures r.At(p) == RemoveWall(m.At(p), d)
    ensures forall q :: m.InBounds(q) && q != p ==> r.At(q) == m.At(q)
  {
    m.Update(p, RemoveWall(m.At(p), d))
  }

  // ---------------------------------------------------------------------
  // Relations between two states of the same grid
  // ---------------------------------------------------------------------

  predicate SameShape(m: Maze, m': Maze) {
    m.Valid() && m'.Valid() && m.cols == m'.cols && m.rows == m'.rows
  }

  /** Every wall flag of every cell is the same in both grids. */
  ghost predicate SameWalls(m: Maze, m': Maze) {
    && SameShape(m, m')
    && forall q, d :: m.InBounds(q) ==> HasWall(m'.At(q), d) == HasWall(m.At(q), d)
  }

  /** Every visited flag of every cell is the same in both grids. */
  ghost predicate SameVisited(m: Maze, m': Maze) {
    && SameShape(m, m')
    && forall q :: m.InBounds(q) ==> m'.At(q).visited == m.At(q).visited
  }

  /** No cell that was visited in `m` is unvisited in `m'`. */
  ghost predicate VisitedGrows(m: Maze, m': Maze) {
    && SameShape(m, m')
    && forall q :: m.InBounds(q) && m.At(q).visited ==> m'.At(q).visited
  }

  /** No wall that was open in `m` is standing in `m'`. */
  ghost predicate WallsOnlyOpened(m: Maze, m': Maze) {
    && SameShape(m, m')
    && forall q, d :: m.InBounds(q) && !HasWall(m.At(q), d) ==> !HasWall(m'.At(q), d)
  }

  /** The walls on the outer boundary (the sides of cells whose neighbour
      that way lies outside the grid) are the same in both grids. */
  ghost predicate SameBoundary(m: Maze, m': Maze) {
    && SameShape(m, m')
    && forall q, d :: m.InBounds(q) && !m.InBounds(Neighbor(q, d)) ==>
      HasWall(m'.At(q), d) == HasWall(m.At(q), d)
  }

  // ---------------------------------------------------------------------
  // Wall structure
  // ---------------------------------------------------------------------

  /** Every wall on the outer boundary stands, except the entrance's top
      wall and the exit's bottom wall. */
  ghost predicate BoundaryClosed(m: Maze)
    requires m.Valid()
  {
    forall q, d ::
      && m.InBounds(q) && !m.InBounds(Neighbor(q, d))
      && !(q == m.Entrance() && d == Up) && !(q == m.Exit() && d == Down)
      ==> HasWall(m.At(q), d)
  }

  /** A grid whose outer walls are those of a closed grid is closed. */
  lemma BoundaryClosedKept(m: Maze, m': Maze)
    requires SameBoundary(m, m') && BoundaryClosed(m)
    ensures BoundaryClosed(m')
  {
  }

  /** Walls between adjacent cells are consistent from both sides. */
  ghost predicate Symmetric(m: Maze)
    requires m.Valid()
  {
    forall q, n, d {:trigger HasWall(m.At(q), d), HasWall(m.At(n), Opposite(d))} ::
      m.InBounds(q) && m.InBounds(n) && n == Neighbor(q, d) ==>
      HasWall(m.At(q), d) == HasWall(m.At(n), Opposite(d))
  }

  /** One can step from `p` towards `d`: the neighbour exists and the walls on
      both sides of the shared edge are down. */
  predicate Passable(m: Maze, p: Pos, d: Dir)
    requires m.Valid()
  {
    && m.InBounds(p)
    && m.InBounds(Neighbor(p, d))
    && !HasWall(m.At(p), d)
    && !HasWall(m.At(Neighbor(p, d)), Opposite(d))
  }

  /** An internal edge of the grid, named by its upper or left cell and the
      direction (`Right` or `Down`) in which the other cell lies. */
  datatype Edge = Edge(at: Pos, d: Dir)

  /** The edge shared by `p` and its neighbour in direction `d`. */
  function EdgeOf(p: Pos, d: Dir): (e: Edge)
    ensures e.d == Right || e.d == Down
  {
    match d
    case Left => Edge(Neighbor(p, Left), Right)
    case Up => Edge(Neighbor(p, Up), Down)
    case Right => Edge(p, Right)
    case Down => Edge(p, Down)
  }

  /** The internal edges that can be crossed: the maze's graph. */
  function OpenEdges(m: Maze): (r: set<Edge>)
    requires m.Valid()
    ensures forall e {:trigger e in r} :: e in r <==> (e.d == Right || e.d == Down) && Passable(m, e.at, e.d)
  {
    var h := set i, j | 0 <= i < m.cols && 0 <= j < m.rows && Passable(m, Pos(i, j), Right)
      :: Edge(Pos(i, j), Right);
    var v := set i, j | 0 <= i < m.cols && 0 <= j < m.rows && Passable(m, Pos(i, j), Down)
      :: Edge(Pos(i, j), Down);
    h + v
  }

  /** The cells not yet visited. */
  function Unvisited(m: Maze): (r: set<Pos>)
    requires m.Valid()
    ensures forall q {:trigger q in r} :: q in r <==> m.InBounds(q) && !m.At(q).visited
  {
    set i, j | 0 <= i < m.cols && 0 <= j < m.rows && !m.cells[i][j].visited :: Pos(i, j)
  }

  /** All the grid's positions. */
  function Positions(cols: nat, rows: nat): (r: set<Pos>)
    ensures forall q {:trigger q in r} :: q in r <==> 0 <= q.col < cols && 0 <= q.row < rows
  {
    set i, j | 0 <= i < cols && 0 <= j < rows :: Pos(i, j)
  }

  // ---------------------------------------------------------------------
  // Walks through open walls
  // ---------------------------------------------------------------------

  /** A single move of a walk: to an adjacent cell across an open edge. */
  predicate Step(m: Maze, a: Pos, b: Pos)
    requires m.Valid()
  {
    Adjacent(a, b) && Passable(m, a, DirTo(a, b))
  }

  ghost predicate IsWalk(m: Maze, w: seq<Pos>)
    requires m.Valid()
  {
    && |w| > 0
    && (forall k :: 0 <= k < |w| ==> m.InBounds(w[k]))
    && (forall k :: 0 <= k < |w| - 1 ==> Step(m, w[k], w[k + 1]))
  }

  /** `b` can be reached from `a` through open walls. */
  ghost predicate Reachable(m: Maze, a: Pos, b: Pos)
    requires m.Valid()
  {
    exists w :: IsWalk(m, w) && w[0] == a && w[|w| - 1] == b
  }

  lemma ReachableRefl(m: Maze, a: Pos)
    requires m.Valid() && m.InBounds(a)
    ensures Reachable(m, a, a)
  {
    assert IsWalk(m, [a]);
  }

  /** A walk can be extended by one more step at its end. */
  lemma ReachableStep(m: Maze, a: Pos, b: Pos, c: Pos)
    requires m.Valid() && Reachable(m, a, b) && Step(m, b, c)
    ensures Reachable(m, a, c)
  {
    var w :| IsWalk(m, w) && w[0] == a && w[|w| - 1] == b;
    var w' := w + [c];
    assert forall k :: 0 <= k < |w'| - 1 ==> Step(m, w'[k], w'[k + 1]) by {
      forall k | 0 <= k < |w'| - 1
        ensures Step(m, w'[k], w'[k + 1])
      {
        if k < |w| - 1 {
          assert w'[k] == w[k] && w'[k + 1] == w[k + 1];
        }
      }
    }
    assert IsWalk(m, w');
  }

  /** A walk can be extended by one more step at its start. */
  lemma ReachableStepBack(m: Maze, a: Pos, b: Pos, c: Pos)
    requires m.Valid() && m.InBounds(a) && Step(m, a, b) && Reachable(m, b, c)
    ensures Reachable(m, a, c)
  {
    var w :| IsWalk(m, w) && w[0] == b && w[|w| - 1] == c;
    var w' := [a] + w;
    assert forall k :: 0 <= k < |w'| - 1 ==> Step(m, w'[k], w'[k + 1]) by {
      forall k | 0 <= k < |w'| - 1
        ensures Step(m, w'[k], w'[k + 1])
      {
        if k > 0 {
          assert w'[k] == w[k - 1] && w'[k + 1] == w[k];
        }
      }
    }
    assert IsWalk(m, w');
  }

  /** Opening walls never destroys a walk. */
  lemma ReachableMono(m: Maze, m': Maze, a: Pos, b: Pos)
    requires WallsOnlyOpened(m, m') && Reachable(m, a, b)
    ensures Reachable(m', a, b)
  {
    var w :| IsWalk(m, w) && w[0] == a && w[|w| - 1] == b;
    forall k | 0 <= k < |w| - 1
      ensures Step(m', w[k], w[k + 1])
    {
      assert Step(m, w[k], w[k + 1]);
    }
    assert IsWalk(m', w);
  }

  lemma SameWallsOnlyOpened(m: Maze, m': Maze)
    requires SameWalls(m, m')
    ensures WallsOnlyOpened(m, m') && WallsOnlyOpened(m', m) && SameWalls(m', m)
    ensures SameBoundary(m, m')
  {
  }

  /** Grids with the same walls have the same walks. */
  lemma ReachableSameWalls(m: Maze, m': Maze, a: Pos, b: Pos)
    requires SameWalls(m, m')
    ensures Reachable(m', a, b) ==> Reachable(m, a, b)
  {
    if Reachable(m', a, b) {
      SameWallsOnlyOpened(m, m');
      ReachableMono(m', m, a, b);
    }
  }

  /** A step is possible exactly when the edge it crosses is open. */
  lemma PassableIsOpenEdge(m: Maze, q: Pos, d: Dir)
    requires m.Valid()
    ensures Passable(m, q, d) <==> m.InBounds(q) && EdgeOf(q, d) in OpenEdges(m)
  {
    NeighborIsAdjacent(q, d);
  }

  lemma SameWallsSameEdges(m: Maze, m': Maze)
    requires SameWalls(m, m')
    ensures OpenEdges(m') == OpenEdges(m)
  {
    forall e | e in OpenEdges(m)
      ensures e in OpenEdges(m')
    {
      assert Passable(m, e.at, e.d);
    }
    forall e | e in OpenEdges(m')
      ensures e in OpenEdges(m)
    {
      assert Passable(m', e.at, e.d);
    }
  }

  // ---------------------------------------------------------------------
  // Counting cells
  // ---------------------------------------------------------------------

  lemma SubsetCard<T>(a: set<T>, b: set<T>)
    requires a <= b
    ensures |a| <= |b|
  {
    assert b == a + (b - a);
  }

  /** The grid with the cell at `p` marked visited; no wall changes. */
  function MarkVisited(m: Maze, p: Pos): (r: Maze)
    requires m.Valid() && m.InBounds(p)
    ensures SameWalls(m, r) && VisitedGrows(m, r)
    ensures r.At(p).visited
    ensures forall q :: m.InBounds(q) && q != p ==> r.At(q) == m.At(q)
    ensures Unvisited(r) == Unvisited(m) - {p}
  {
    m.Update(p, m.At(p).(visited := true))
  }

  lemma UnvisitedSame(m: Maze, m': Maze)
    requires SameVisited(m, m')
    ensures Unvisited(m') == Unvisited(m)
  {
  }

  lemma VisitedGrowsAfterSame(m: Maze, m': Maze, m'': Maze)
    requires SameVisited(m, m') && VisitedGrows(m', m'')
    ensures VisitedGrows(m, m'')
  {
  }

  /** Two search steps that keep the walls and only set visited flags
      compose into one. */
  lemma SearchStepsCompose(a: Maze, b: Maze, c: Maze)
    requires SameWalls(a, b) && VisitedGrows(a, b)
    requires SameWalls(b, c) && VisitedGrows(b, c)
    ensures SameWalls(a, c) && VisitedGrows(a, c)
  {
  }

  /** Two carving steps that only open internal walls and only set visited
      flags compose into one. */
  lemma CarveStepsCompose(a: Maze, b: Maze, c: Maze)
    requires WallsOnlyOpened(a, b) && VisitedGrows(a, b) && SameBoundary(a, b)
    requires WallsOnlyOpened(b, c) && VisitedGrows(b, c) && SameBoundary(b, c)
    ensures WallsOnlyOpened(a, c) && VisitedGrows(a, c) && SameBoundary(a, c)
  {
  }

  /** When visited flags only get set, the unvisited set shrinks; strictly so
      when `p` went from unvisited to visited. */
  lemma UnvisitedShrinks(m: Maze, m': Maze, p: Pos)
    requires VisitedGrows(m, m')
    ensures Unvisited(m') <= Unvisited(m)
    ensures |Unvisited(m')| <= |Unvisited(m)|
    ensures m.InBounds(p) && !m.At(p).visited && m'.At(p).visited ==>
      |Unvisited(m')| < |Unvisited(m)|
  {
    SubsetCard(Unvisited(m'), Unvisited(m));
    if m.InBounds(p) && !m.At(p).visited && m'.At(p).visited {
      SubsetCard(Unvisited(m'), Unvisited(m) - {p});
    }
  }

  /** The positions of column `col`. */
  function Column(col: int, rows: nat): (r: set<Pos>)
    ensures forall q {:trigger q in r} :: q in r <==> q.col == col && 0 <= q.row < rows
  {
    set j | 0 <= j < rows :: Pos(col, j)
  }

  lemma {:induction false} ColumnCard(col: int, rows: nat)
    ensures |Column(col, rows)| == rows
  {
    if rows > 0 {
      assert Column(col, rows) == Column(col, rows - 1) + {Pos(col, rows - 1)};
      ColumnCard(col, rows - 1);
    }
  }

  /** The grid has `cols * rows` positions. */
  lemma {:induction false} PositionsCard(cols: nat, rows: nat)
    ensures |Positions(cols, rows)| == cols * rows
  {
    if cols > 0 {
      var prev, col := Positions(cols - 1, rows), Column(cols - 1, rows);
      ColumnCard(cols - 1, rows);
      PositionsCard(cols - 1, rows);
      assert Positions(cols, rows) == prev + col;
      assert prev * col == {};
      assert |prev + col| == |prev| + |col|;
      assert cols * rows == (cols - 1) * rows + rows;
    }
  }

  // ---------------------------------------------------------------------
  // Whole-grid operations
  // ---------------------------------------------------------------------

  /** A `cols` by `rows` grid of fresh cells, indexed [col][row]. */
  function CreateCells(cols: nat, rows: nat): (m: Maze)
    ensures m.Valid() && m.cols == cols && m.rows == rows
    ensures forall q :: m.InBounds(q) ==> m.At(q) == FreshCell
  {
    Maze(cols, rows, seq(cols, _ => seq(rows, _ => FreshCell)))
  }

  /** A fresh grid has no open edge, every cell unvisited, consistent walls. */
  lemma CreatedGridIsClosed(cols: nat, rows: nat)
    ensures Symmetric(CreateCells(cols, rows))
    ensures OpenEdges(CreateCells(cols, rows)) == {}
    ensures Unvisited(CreateCells(cols, rows)) == Positions(cols, rows)
    ensures |Unvisited(CreateCells(cols, rows))| == cols * rows
  {
    var m := CreateCells(cols, rows);
    forall e | e in OpenEdges(m)
      ensures false
    {
    }
    PositionsCard(cols, rows);
  }

  /** Clears the visited flag of every cell and leaves every wall alone. */
  function ResetVisited(m: Maze): (r: Maze)
    requires m.Valid()
    ensures SameWalls(m, r)
    ensures forall q :: r.InBounds(q) ==> !r.At(q).visited
  {
    m.(cells := seq(m.cols, i requires 0 <= i < m.cols =>
      seq(m.rows, j requires 0 <= j < m.rows => m.cells[i][j].(visited := false))))
  }

  /** After a reset every cell is unvisited again and the maze's graph is the
      one before the reset. */
  lemma ResetVisitedFacts(m: Maze)
    requires m.Valid()
    ensures Unvisited(ResetVisited(m)) == Positions(m.cols, m.rows)
    ensures OpenEdges(ResetVisited(m)) == OpenEdges(m)
    ensures Symmetric(m) ==> Symmetric(ResetVisited(m))
  {
    SameWallsSameEdges(m, ResetVisited(m));
  }

  /** Resetting twice is resetting once. */
  lemma ResetVisitedIdempotent(m: Maze)
    requires m.Valid()
    ensures ResetVisited(ResetVisited(m)) == ResetVisited(m)
  {
    var r := ResetVisited(m);
    var r2 := ResetVisited(r);
    assert forall i :: 0 <= i < m.cols ==> r2.cells[i] == r.cells[i];
  }
}
