/**
 Maze generation: opening the entrance and the exit, and the randomized
 recursive backtracker that carves a spanning tree into the grid.

 The random pick among the candidate neighbours is the one thing the
 model does not compute: it is read from a caller-supplied stream
 `draws`, the `t`-th pick taking candidate `draws(t) % |candidates|`.
 Every sequence of picks is produced by some stream, so whatever is proved
 here holds for every outcome of the random generator.
 */
module Generator {
  import opened Grid

  // ---------------------------------------------------------------------
  // Entrance and exit
  // ---------------------------------------------------------------------

  /** Takes down the top wall of the entrance cell (0, 0) and the bottom wall of
      the exit cell (cols - 1, rows - 1); on a 1 x 1 grid both are the same cell. */
  function BreakEntranceAndExit(m: Maze): (r: Maze)
    requires m.Valid() && m.cols >= 1 && m.rows >= 1
    ensures SameVisited(m, r)
    ensures !HasWall(r.At(m.Entrance()), Up)
    ensures !HasWall(r.At(m.Exit()), Down)
    ensures forall q, d :: m.InBounds(q) && !(q == m.Entrance() && d == Up) && !(q == m.Exit() && d == Down) ==>
      HasWall(r.At(q), d) == HasWall(m.At(q), d)
  {
    OpenSide(OpenSide(m, m.Entrance(), Up), m.Exit(), Down)
  }

  /** The two openings are on the outer boundary, so the maze's graph and the
      consistency of its internal walls are untouched. */
  lemma EntranceAndExitKeepGraph(m: Maze)
    requires m.Valid() && m.cols >= 1 && m.rows >= 1
    ensures OpenEdges(BreakEntranceAndExit(m)) == OpenEdges(m)
    ensures Symmetric(m) ==> Symmetric(BreakEntranceAndExit(m))
    ensures WallsOnlyOpened(m, BreakEntranceAndExit(m))
  {
    EntranceAndExitKeepEdges(m);
    if Symmetric(m) {
      EntranceAndExitKeepSymmetric(m);
    }
  }

  lemma EntranceAndExitKeepEdges(m: Maze)
    requires m.Valid() && m.cols >= 1 && m.rows >= 1
    ensures OpenEdges(BreakEntranceAndExit(m)) == OpenEdges(m)
    ensures WallsOnlyOpened(m, BreakEntranceAndExit(m))
  {
    var r := BreakEntranceAndExit(m);
    forall e: Edge | e.d == Right || e.d == Down
      ensures Passable(r, e.at, e.d) == Passable(m, e.at, e.d)
    {
      if e.at == m.Exit() && e.d == Down {
        assert !m.InBounds(Neighbor(e.at, e.d));
      }
    }
  }

  lemma EntranceAndExitKeepSymmetric(m: Maze)
    requires m.Valid() && m.cols >= 1 && m.rows >= 1 && Symmetric(m)
    ensures Symmetric(BreakEntranceAndExit(m))
  {
    var r := BreakEntranceAndExit(m);
    forall q, n, d | r.InBounds(q) && r.InBounds(n) && n == Neighbor(q, d)
      ensures HasWall(r.At(q), d) == HasWall(r.At(n), Opposite(d))
    {
      assert HasWall(m.At(q), d) == HasWall(m.At(n), Opposite(d));
    }
  }

  /** On a fresh grid the entrance's top and the exit's bottom are the only
      openings in the outer wall once the two are broken. */
  lemma EntranceAndExitOnlyOpenings(cols: nat, rows: nat)
    requires cols >= 1 && rows >= 1
    ensures BoundaryClosed(BreakEntranceAndExit(CreateCells(cols, rows)))
  {
  }

  // ---------------------------------------------------------------------
  // One carving step
  // ---------------------------------------------------------------------

  /** The test the carve makes in direction `d`: a one-element list holding
      the neighbour of `p` that way when it lies in the grid and is not yet
      visited, and the empty list otherwise. */
  function Candidate(m: Maze, p: Pos, d: Dir): (r: seq<Pos>)
    requires m.Valid() && m.InBounds(p)
    ensures |r| <= 1
    ensures forall q {:trigger q in r} :: q in r <==> q == Neighbor(p, d) && m.InBounds(q) && !m.At(q).visited
  {
    match d
    case Left =>
      if p.col > 0 && !m.At(Pos(p.col - 1, p.row)).visited then [Pos(p.col - 1, p.row)] else []
    case Up =>
      if p.row > 0 && !m.At(Pos(p.col, p.row - 1)).visited then [Pos(p.col, p.row - 1)] else []
    case Right =>
      if p.col < m.cols - 1 && !m.At(Pos(p.col + 1, p.row)).visited then [Pos(p.col + 1, p.row)] else []
    case Down =>
      if p.row < m.rows - 1 && !m.At(Pos(p.col, p.row + 1)).visited then [Pos(p.col, p.row + 1)] else []
  }

  /** The neighbours of `p` that are in the grid and not yet visited, listed
      left, up, right, down. */
  function Candidates(m: Maze, p: Pos): (r: seq<Pos>)
    requires m.Valid() && m.InBounds(p)
    ensures forall q :: q in r ==> Adjacent(p, q) && m.InBounds(q) && !m.At(q).visited
  {
    NeighborIsAdjacent(p, Left);
    NeighborIsAdjacent(p, Up);
    NeighborIsAdjacent(p, Right);
    NeighborIsAdjacent(p, Down);
    Candidate(m, p, Left) + Candidate(m, p, Up) + Candidate(m, p, Right) + Candidate(m, p, Down)
  }

  /** Every neighbour of `p` in the grid that is not yet visited is a
      candidate. */
  lemma CandidatesComplete(m: Maze, p: Pos, d: Dir)
    requires m.Valid() && m.InBounds(p)
    requires m.InBounds(Neighbor(p, d)) && !m.At(Neighbor(p, d)).visited
    ensures Neighbor(p, d) in Candidates(m, p)
  {
    assert Neighbor(p, d) in Candidate(m, p, d);
    var r := Candidates(m, p);
    match d
    case Left => assert Candidate(m, p, d) <= r;
    case Up => assert r == Candidate(m, p, Left) + Candidate(m, p, d) + Candidate(m, p, Right) + Candidate(m, p, Down);
    case Right => assert r == (Candidate(m, p, Left) + Candidate(m, p, Up)) + Candidate(m, p, d) + Candidate(m, p, Down);
    case Down => assert r == (Candidate(m, p, Left) + Candidate(m, p, Up) + Candidate(m, p, Right)) + Candidate(m, p, d);
  }

  /** The candidates come in the order left, up, right, down, each at most
      once. */
  lemma CandidatesOrdered(m: Maze, p: Pos)
    requires m.Valid() && m.InBounds(p)
    ensures var r := Candidates(m, p);
      forall k, l :: 0 <= k < l < |r| ==> DirIndex(DirTo(p, r[k])) < DirIndex(DirTo(p, r[l]))
  {
    var l, u, rt, dn := Candidate(m, p, Left), Candidate(m, p, Up), Candidate(m, p, Right), Candidate(m, p, Down);
    NeighborIsAdjacent(p, Left);
    NeighborIsAdjacent(p, Up);
    NeighborIsAdjacent(p, Right);
    NeighborIsAdjacent(p, Down);
    assert forall k :: 0 <= k < |l| ==> l[k] in l;
    assert forall k :: 0 <= k < |u| ==> u[k] in u;
    assert forall k :: 0 <= k < |rt| ==> rt[k] in rt;
    assert forall k :: 0 <= k < |dn| ==> dn[k] in dn;
    CandidateOrder(p, l, u, rt, dn);
  }

  /** Concatenating the at-most-one-element lists of the four directions, in
      order, keeps the directions strictly increasing. */
  lemma CandidateOrder(p: Pos, l: seq<Pos>, u: seq<Pos>, rt: seq<Pos>, dn: seq<Pos>)
    requires forall k :: 0 <= k < |l| ==> DirTo(p, l[k]) == Left
    requires forall k :: 0 <= k < |u| ==> DirTo(p, u[k]) == Up
    requires forall k :: 0 <= k < |rt| ==> DirTo(p, rt[k]) == Right
    requires forall k :: 0 <= k < |dn| ==> DirTo(p, dn[k]) == Down
    requires |l| <= 1 && |u| <= 1 && |rt| <= 1 && |dn| <= 1
    ensures var r := l + u + rt + dn;
      forall k, j :: 0 <= k < j < |r| ==> DirIndex(DirTo(p, r[k])) < DirIndex(DirTo(p, r[j]))
  {
    var r := l + u + rt + dn;
    forall k, j | 0 <= k < j < |r|
      ensures DirIndex(DirTo(p, r[k])) < DirIndex(DirTo(p, r[j]))
    {
      var a, b, c := |l|, |l| + |u|, |l| + |u| + |rt|;
      assert forall i :: 0 <= i < a ==> r[i] == l[i];
      assert forall i :: a <= i < b ==> r[i] == u[i - a];
      assert forall i :: b <= i < c ==> r[i] == rt[i - b];
      assert forall i :: c <= i < |r| ==> r[i] == dn[i - c];
    }
  }

  /** Takes down the wall of `p` on side `d` and the facing wall of its
      neighbour in that direction. Exactly those two wall flags change. */
  function OpenPair(m: Maze, p: Pos, d: Dir): (r: Maze)
    requires m.Valid() && m.InBounds(p) && m.InBounds(Neighbor(p, d))
    ensures SameVisited(m, r)
    ensures forall q, s :: m.InBounds(q) ==>
      HasWall(r.At(q), s) ==
        (HasWall(m.At(q), s) && !(q == p && s == d) && !(q == Neighbor(p, d) && s == Opposite(d)))
  {
    OpenSide(OpenSide(m, p, d), Neighbor(p, d), Opposite(d))
  }

  /** Taking down a wall pair keeps the walls between adjacent cells
      consistent. */
  lemma OpenPairKeepsSymmetric(m: Maze, p: Pos, d: Dir)
    requires m.Valid() && m.InBounds(p) && m.InBounds(Neighbor(p, d))
    requires Symmetric(m)
    ensures Symmetric(OpenPair(m, p, d))
  {
    var r := OpenPair(m, p, d);
    NeighborIsAdjacent(p, d);
    forall q, q', s | r.InBounds(q) && r.InBounds(q') && q' == Neighbor(q, s)
      ensures HasWall(r.At(q), s) == HasWall(r.At(q'), Opposite(s))
    {
      NeighborIsAdjacent(q, s);
      if q == p && s == d {
        assert !HasWall(r.At(q), s) && !HasWall(r.At(q'), Opposite(s));
      } else if q == Neighbor(p, d) && s == Opposite(d) {
        assert q' == p && Opposite(s) == d;
      } else {
        assert !(q' == p && Opposite(s) == d);
        assert !(q' == Neighbor(p, d) && Opposite(s) == Opposite(d));
        assert HasWall(m.At(q), s) == HasWall(m.At(q'), Opposite(s));
      }
    }
  }

  /** Takes down the wall between `p` and the adjacent cell `n` on both sides,
      deciding which wall by comparing coordinates: `n` to the left, above, to
      the right or below. For an adjacent `n` exactly one of the four
      comparisons holds, so testing them one after another picks the same
      wall as this chain. Exactly those two wall flags change. */
  function KnockDown(m: Maze, p: Pos, n: Pos): (r: Maze)
    requires m.Valid() && m.InBounds(p) && m.InBounds(n) && Adjacent(p, n)
    ensures SameVisited(m, r)
    ensures forall q, s :: m.InBounds(q) ==>
      HasWall(r.At(q), s) ==
        (HasWall(m.At(q), s) && !(q == p && s == DirTo(p, n)) && !(q == n && s == Opposite(DirTo(p, n))))
  {
    if n.col == p.col - 1 then OpenPair(m, p, Left)
    else if n.row == p.row - 1 then OpenPair(m, p, Up)
    else if n.col == p.col + 1 then OpenPair(m, p, Right)
    else if n.row == p.row + 1 then OpenPair(m, p, Down)
    else m
  }

  /** Knocking down a wall pair sets no visited flag, raises no wall and
      leaves the outer walls alone: both flags it clears face a cell of the
      grid. */
  lemma KnockDownOnlyOpens(m: Maze, p: Pos, n: Pos)
    requires m.Valid() && m.InBounds(p) && m.InBounds(n) && Adjacent(p, n)
    ensures var r := KnockDown(m, p, n);
      SameVisited(m, r) && VisitedGrows(m, r) && WallsOnlyOpened(m, r) && SameBoundary(m, r)
  {
    NeighborIsAdjacent(p, DirTo(p, n));
  }

  /** Knocking down a wall pair keeps the walls between adjacent cells
      consistent. */
  lemma KnockDownKeepsSymmetric(m: Maze, p: Pos, n: Pos)
    requires m.Valid() && m.InBounds(p) && m.InBounds(n) && Adjacent(p, n)
    requires Symmetric(m)
    ensures Symmetric(KnockDown(m, p, n))
  {
    OpenPairKeepsSymmetric(m, p, DirTo(p, n));
  }

  /** Knocking down a wall pair opens the one edge between `p` and `n` and no
      other, and makes it crossable from `p`. */
  lemma KnockDownOpensOneEdge(m: Maze, p: Pos, n: Pos)
    requires m.Valid() && m.InBounds(p) && m.InBounds(n) && Adjacent(p, n)
    ensures WallsOnlyOpened(m, KnockDown(m, p, n))
    ensures OpenEdges(KnockDown(m, p, n)) == OpenEdges(m) + {EdgeOf(p, DirTo(p, n))}
    ensures Step(KnockDown(m, p, n), p, n)
  {
    var r := KnockDown(m, p, n);
    var d := DirTo(p, n);
    NeighborIsAdjacent(p, d);
    KnockDownOnlyOpens(m, p, n);
    assert Passable(r, p, d);
    assert EdgeOf(p, d) in OpenEdges(r) by {
      PassableIsOpenEdge(r, p, d);
    }
    assert OpenEdges(r) <= OpenEdges(m) + {EdgeOf(p, d)} by {
      forall e | e in OpenEdges(r)
        ensures e in OpenEdges(m) || e == EdgeOf(p, d)
      {
        KnockDownEdge(m, p, n, e);
      }
    }
    assert OpenEdges(m) <= OpenEdges(r) by {
      forall e | e in OpenEdges(m)
        ensures e in OpenEdges(r)
      {
        assert Passable(m, e.at, e.d);
      }
    }
  }

  lemma KnockDownEdge(m: Maze, p: Pos, n: Pos, e: Edge)
    requires m.Valid() && m.InBounds(p) && m.InBounds(n) && Adjacent(p, n)
    requires e.d == Right || e.d == Down
    requires Passable(KnockDown(m, p, n), e.at, e.d)
    ensures Passable(m, e.at, e.d) || e == EdgeOf(p, DirTo(p, n))
  {
    var r := KnockDown(m, p, n);
    var d := DirTo(p, n);
    var q := Neighbor(e.at, e.d);
    if !Passable(m, e.at, e.d) {
      if HasWall(m.At(e.at), e.d) {
        assert e.at == p || e.at == n;
      } else {
        assert HasWall(m.At(q), Opposite(e.d));
        assert q == p || q == n;
      }
    }
  }

  /** A step that is open after knocking down the wall pair between `p` and
      `n` was open before, or is that very pair. */
  lemma KnockDownPassable(m: Maze, p: Pos, n: Pos, q: Pos, d: Dir)
    requires m.Valid() && m.InBounds(p) && m.InBounds(n) && Adjacent(p, n)
    requires Passable(KnockDown(m, p, n), q, d)
    ensures Passable(m, q, d) || (q == p && Neighbor(q, d) == n) || (q == n && Neighbor(q, d) == p)
  {
    NeighborIsAdjacent(q, d);
  }

  // ---------------------------------------------------------------------
  // The recursive backtracker
  // ---------------------------------------------------------------------

  /** The state threaded through carving: the grid and the index of the next
      random draw. */
  datatype Carving = Carving(maze: Maze, next: nat)

  /** The recursive carve from `p` (`_break_walls_r`): marks `p` visited and
      carves on from it. It only takes down walls between two cells of the
      grid, so the outer walls keep their flags. */
  function BreakWalls(m: Maze, p: Pos, draws: nat -> nat, t: nat): (r: Carving)
    requires m.Valid() && m.InBounds(p)
    ensures VisitedGrows(m, r.maze) && WallsOnlyOpened(m, r.maze)
    ensures SameBoundary(m, r.maze)
    ensures r.maze.At(p).visited
    decreases |Unvisited(m)|, if m.At(p).visited then 2 else 0
  {
    var m1 := MarkVisited(m, p);
    SameWallsOnlyOpened(m, m1);
    var r := CarveFrom(m1, p, draws, t);
    CarveStepsCompose(m, m1, r.maze);
    r
  }

  /** The loop of the recursive carve, entered with `p` visited: while `p` has
      an unvisited neighbour, pick one with the next draw, knock down the wall
      to it and carve from it. It returns only when every neighbour of `p` is
      visited. */
  function CarveFrom(m: Maze, p: Pos, draws: nat -> nat, t: nat): (r: Carving)
    requires m.Valid() && m.InBounds(p)
    ensures VisitedGrows(m, r.maze) && WallsOnlyOpened(m, r.maze)
    ensures SameBoundary(m, r.maze)
    decreases |Unvisited(m)|, 1
  {
    var cands := Candidates(m, p);
    if |cands| == 0 then Carving(m, t)
    else
      var n := cands[draws(t) % |cands|];
      var m2 := KnockDown(m, p, n);
      UnvisitedSame(m, m2);
      KnockDownOnlyOpens(m, p, n);
      var c := BreakWalls(m2, n, draws, t + 1);
      CarveStepsCompose(m, m2, c.maze);
      UnvisitedShrinks(m, c.maze, n);
      var f := CarveFrom(c.maze, p, draws, c.next);
      CarveStepsCompose(m, c.maze, f.maze);
      f
  }

  // ---------------------------------------------------------------------
  // Invariants of the backtracker
  // ---------------------------------------------------------------------

  /** The loop from `p` ends only once every neighbour of `p` is visited. */
  lemma {:induction false} CarveFromVisitsNeighbors(m: Maze, p: Pos, draws: nat -> nat, t: nat)
    requires m.Valid() && m.InBounds(p)
    ensures NeighborsVisited(CarveFrom(m, p, draws, t).maze, p)
    decreases |Unvisited(m)|
  {
    var cands := Candidates(m, p);
    if |cands| > 0 {
      var n := cands[draws(t) % |cands|];
      var m2 := KnockDown(m, p, n);
      UnvisitedSame(m, m2);
      var c := BreakWalls(m2, n, draws, t + 1);
      VisitedGrowsAfterSame(m, m2, c.maze);
      UnvisitedShrinks(m, c.maze, n);
      assert CarveFrom(m, p, draws, t) == CarveFrom(c.maze, p, draws, c.next);
      CarveFromVisitsNeighbors(c.maze, p, draws, c.next);
    } else {
      forall d | m.InBounds(Neighbor(p, d))
        ensures m.At(Neighbor(p, d)).visited
      {
        if !m.At(Neighbor(p, d)).visited {
          CandidatesComplete(m, p, d);
        }
      }
    }
  }

  /** Carving keeps the walls between neighbours consistent. */
  lemma {:induction false} BreakWallsKeepsSymmetric(m: Maze, p: Pos, draws: nat -> nat, t: nat)
    requires m.Valid() && m.InBounds(p) && Symmetric(m)
    ensures Symmetric(BreakWalls(m, p, draws, t).maze)
    decreases |Unvisited(m)|, if m.At(p).visited then 2 else 0
  {
    var m1 := MarkVisited(m, p);
    CarveFromKeepsSymmetric(m1, p, draws, t);
  }

  /** Each round of the loop keeps the walls between neighbours consistent. */
  lemma {:induction false} CarveFromKeepsSymmetric(m: Maze, p: Pos, draws: nat -> nat, t: nat)
    requires m.Valid() && m.InBounds(p) && Symmetric(m)
    ensures Symmetric(CarveFrom(m, p, draws, t).maze)
    decreases |Unvisited(m)|, 1
  {
    var cands := Candidates(m, p);
    if |cands| > 0 {
      var n := cands[draws(t) % |cands|];
      var m2 := KnockDown(m, p, n);
      UnvisitedSame(m, m2);
      KnockDownKeepsSymmetric(m, p, n);
      var c := BreakWalls(m2, n, draws, t + 1);
      BreakWallsKeepsSymmetric(m2, n, draws, t + 1);
      VisitedGrowsAfterSame(m, m2, c.maze);
      UnvisitedShrinks(m, c.maze, n);
      CarveFromKeepsSymmetric(c.maze, p, draws, c.next);
    }
  }

  /** Every crossable edge joins two visited cells, except that one end may be
      `p`. */
  ghost predicate EdgesAmongVisited(m: Maze, p: Pos)
    requires m.Valid()
  {
    forall q, d :: Passable(m, q, d) ==>
      && (m.At(q).visited || q == p)
      && (m.At(Neighbor(q, d)).visited || Neighbor(q, d) == p)
  }

  /** Once `p` is visited, the exception for it is no longer needed. */
  lemma EdgesAmongVisitedMove(m: Maze, p: Pos, p': Pos)
    requires m.Valid() && m.InBounds(p) && m.At(p).visited && EdgesAmongVisited(m, p)
    ensures EdgesAmongVisited(m, p')
  {
  }

  /** Marking cells visited without touching walls keeps the edges among the
      visited cells. */
  lemma EdgesAmongVisitedMark(m: Maze, m': Maze, p: Pos)
    requires SameWalls(m, m') && VisitedGrows(m, m') && EdgesAmongVisited(m, p)
    ensures EdgesAmongVisited(m', p)
  {
    forall q, d | Passable(m', q, d)
      ensures (m'.At(q).visited || q == p) && (m'.At(Neighbor(q, d)).visited || Neighbor(q, d) == p)
    {
      assert Passable(m, q, d);
    }
  }

  /** The edge to an unvisited cell is not open yet. */
  lemma NewEdgeIsNew(m: Maze, p: Pos, n: Pos)
    requires m.Valid() && m.InBounds(p) && m.InBounds(n) && Adjacent(p, n)
    requires m.At(p).visited && !m.At(n).visited && EdgesAmongVisited(m, p)
    ensures EdgeOf(p, DirTo(p, n)) !in OpenEdges(m)
  {
    var d := DirTo(p, n);
    var e := EdgeOf(p, d);
    assert (e.at == p && Neighbor(e.at, e.d) == n) || (e.at == n && Neighbor(e.at, e.d) == p);
  }

  /** The edge just opened ends at the picked cell `n`. */
  lemma KnockDownEdgesAmongVisited(m: Maze, p: Pos, n: Pos)
    requires m.Valid() && m.InBounds(p) && m.InBounds(n) && Adjacent(p, n)
    requires m.At(p).visited && EdgesAmongVisited(m, p)
    ensures EdgesAmongVisited(KnockDown(m, p, n), n)
  {
    var r := KnockDown(m, p, n);
    forall q, d | Passable(r, q, d)
      ensures (r.At(q).visited || q == n) && (r.At(Neighbor(q, d)).visited || Neighbor(q, d) == n)
    {
      KnockDownPassable(m, p, n, q, d);
    }
  }

  /** Knocking down the wall to an unvisited neighbour adds one edge to the
      graph, visits nothing, and leaves the open edges among the visited cells
      and the neighbour. */
  lemma KnockDownCountsEdges(m: Maze, p: Pos, n: Pos)
    requires m.Valid() && m.InBounds(p) && m.InBounds(n) && Adjacent(p, n)
    requires m.At(p).visited && !m.At(n).visited && EdgesAmongVisited(m, p)
    ensures var r := KnockDown(m, p, n);
      && |OpenEdges(r)| == |OpenEdges(m)| + 1
      && Unvisited(r) == Unvisited(m)
      && EdgesAmongVisited(r, n)
  {
    var r := KnockDown(m, p, n);
    UnvisitedSame(m, r);
    KnockDownOpensOneEdge(m, p, n);
    NewEdgeIsNew(m, p, n);
    KnockDownEdgesAmongVisited(m, p, n);
  }

  /** Carving from an unvisited `p` opens exactly one edge fewer than the
      number of cells it visits; every open edge stays between visited cells. */
  lemma {:induction false} BreakWallsCountsEdges(m: Maze, p: Pos, draws: nat -> nat, t: nat)
    requires m.Valid() && m.InBounds(p) && !m.At(p).visited && EdgesAmongVisited(m, p)
    ensures var r := BreakWalls(m, p, draws, t).maze;
      && EdgesAmongVisited(r, p)
      && |OpenEdges(r)| + |Unvisited(r)| + 1 == |OpenEdges(m)| + |Unvisited(m)|
    decreases |Unvisited(m)|, 0
  {
    var m1 := MarkVisited(m, p);
    assert |Unvisited(m1)| + 1 == |Unvisited(m)| by {
      assert p in Unvisited(m);
    }
    assert OpenEdges(m1) == OpenEdges(m) && EdgesAmongVisited(m1, p) by {
      SameWallsSameEdges(m, m1);
      EdgesAmongVisitedMark(m, m1, p);
    }
    CarveFromCountsEdges(m1, p, draws, t);
  }

  /** The loop opens exactly as many edges as it visits cells. */
  lemma {:induction false} CarveFromCountsEdges(m: Maze, p: Pos, draws: nat -> nat, t: nat)
    requires m.Valid() && m.InBounds(p) && m.At(p).visited && EdgesAmongVisited(m, p)
    ensures var r := CarveFrom(m, p, draws, t).maze;
      && EdgesAmongVisited(r, p)
      && |OpenEdges(r)| + |Unvisited(r)| == |OpenEdges(m)| + |Unvisited(m)|
    decreases |Unvisited(m)|, 1
  {
    var cands := Candidates(m, p);
    if |cands| > 0 {
      var n := cands[draws(t) % |cands|];
      var m2 := KnockDown(m, p, n);
      KnockDownCountsEdges(m, p, n);
      var c := BreakWalls(m2, n, draws, t + 1);
      BreakWallsCountsEdges(m2, n, draws, t + 1);
      assert |OpenEdges(c.maze)| + |Unvisited(c.maze)| == |OpenEdges(m)| + |Unvisited(m)|;
      EdgesAmongVisitedMove(c.maze, n, p);
      VisitedGrowsAfterSame(m, m2, c.maze);
      UnvisitedShrinks(m, c.maze, n);
      CarveFromCountsEdges(c.maze, p, draws, c.next);
    }
  }

  /** Every visited cell can be reached from `root` through open walls. */
  ghost predicate AllReachable(m: Maze, root: Pos)
    requires m.Valid()
  {
    forall q :: m.InBounds(q) && m.At(q).visited ==> Reachable(m, root, q)
  }

  /** Opening walls keeps every visited cell reachable. */
  lemma AllReachableMono(m: Maze, m': Maze, root: Pos)
    requires WallsOnlyOpened(m, m') && SameVisited(m, m') && AllReachable(m, root)
    ensures AllReachable(m', root)
  {
    forall q | m'.InBounds(q) && m'.At(q).visited
      ensures Reachable(m', root, q)
    {
      ReachableMono(m, m', root, q);
    }
  }

  /** Carving from a cell reachable from `root` keeps every visited cell
      reachable from `root`. */
  lemma {:induction false} BreakWallsConnects(m: Maze, p: Pos, root: Pos, draws: nat -> nat, t: nat)
    requires m.Valid() && m.InBounds(p) && AllReachable(m, root) && Reachable(m, root, p)
    ensures AllReachable(BreakWalls(m, p, draws, t).maze, root)
    decreases |Unvisited(m)|, if m.At(p).visited then 2 else 0
  {
    var m1 := MarkVisited(m, p);
    forall q | m1.InBounds(q) && m1.At(q).visited
      ensures Reachable(m1, root, q)
    {
      ReachableMono(m, m1, root, q);
    }
    CarveFromConnects(m1, p, root, draws, t);
  }

  /** The loop keeps every visited cell reachable from `root`. */
  lemma {:induction false} CarveFromConnects(m: Maze, p: Pos, root: Pos, draws: nat -> nat, t: nat)
    requires m.Valid() && m.InBounds(p) && m.At(p).visited && AllReachable(m, root)
    ensures AllReachable(CarveFrom(m, p, draws, t).maze, root)
    decreases |Unvisited(m)|, 1
  {
    var cands := Candidates(m, p);
    if |cands| > 0 {
      var n := cands[draws(t) % |cands|];
      var m2 := KnockDown(m, p, n);
      UnvisitedSame(m, m2);
      KnockDownOpensOneEdge(m, p, n);
      AllReachableMono(m, m2, root);
      assert Reachable(m2, root, p);
      ReachableStep(m2, root, p, n);
      var c := BreakWalls(m2, n, draws, t + 1);
      BreakWallsConnects(m2, n, root, draws, t + 1);
      VisitedGrowsAfterSame(m, m2, c.maze);
      UnvisitedShrinks(m, c.maze, n);
      CarveFromConnects(c.maze, p, root, draws, c.next);
    }
  }

  /** All grid neighbours of `q` are visited. */
  ghost predicate NeighborsVisited(m: Maze, q: Pos)
    requires m.Valid()
  {
    forall d :: m.InBounds(Neighbor(q, d)) ==> m.At(Neighbor(q, d)).visited
  }

  /** Every visited cell outside `open` has all its neighbours visited: the
      cells in `open` are those whose carving is still in progress. */
  ghost predicate ClosedExcept(m: Maze, open: set<Pos>)
    requires m.Valid()
  {
    forall q :: m.InBounds(q) && m.At(q).visited && q !in open ==> NeighborsVisited(m, q)
  }

  /** Knocking down walls leaves the visited flags, so also the closed cells. */
  lemma ClosedExceptSameVisited(m: Maze, m': Maze, open: set<Pos>)
    requires SameVisited(m, m') && ClosedExcept(m, open)
    ensures ClosedExcept(m', open)
  {
    forall q | m'.InBounds(q) && m'.At(q).visited && q !in open
      ensures NeighborsVisited(m', q)
    {
      assert NeighborsVisited(m, q);
    }
  }

  /** Marking `p` visited keeps every other cell closed; `p` itself is open
      until its carving returns. */
  lemma ClosedExceptMark(m: Maze, p: Pos, open: set<Pos>)
    requires m.Valid() && m.InBounds(p) && ClosedExcept(m, open)
    ensures ClosedExcept(MarkVisited(m, p), open + {p})
  {
    var m1 := MarkVisited(m, p);
    forall q | m1.InBounds(q) && m1.At(q).visited && q !in open + {p}
      ensures NeighborsVisited(m1, q)
    {
      assert NeighborsVisited(m, q);
    }
  }

  /** When the carve from `p` returns, it leaves no visited cell with an
      unvisited neighbour, apart from the cells still being carved. */
  lemma {:induction false} BreakWallsCovers(m: Maze, p: Pos, open: set<Pos>, draws: nat -> nat, t: nat)
    requires m.Valid() && m.InBounds(p) && ClosedExcept(m, open)
    ensures ClosedExcept(BreakWalls(m, p, draws, t).maze, open)
    decreases |Unvisited(m)|, if m.At(p).visited then 2 else 0
  {
    var m1 := MarkVisited(m, p);
    ClosedExceptMark(m, p, open);
    CarveFromCovers(m1, p, open, draws, t);
  }

  /** The loop leaves `p` closed once it returns. */
  lemma {:induction false} CarveFromCovers(m: Maze, p: Pos, open: set<Pos>, draws: nat -> nat, t: nat)
    requires m.Valid() && m.InBounds(p) && ClosedExcept(m, open + {p})
    ensures ClosedExcept(CarveFrom(m, p, draws, t).maze, open)
    decreases |Unvisited(m)|, 1
  {
    var cands := Candidates(m, p);
    if |cands| > 0 {
      var n := cands[draws(t) % |cands|];
      var m2 := KnockDown(m, p, n);
      UnvisitedSame(m, m2);
      ClosedExceptSameVisited(m, m2, open + {p});
      var c := BreakWalls(m2, n, draws, t + 1);
      BreakWallsCovers(m2, n, open + {p}, draws, t + 1);
      VisitedGrowsAfterSame(m, m2, c.maze);
      UnvisitedShrinks(m, c.maze, n);
      CarveFromCovers(c.maze, p, open, draws, c.next);
    } else {
      forall d | m.InBounds(Neighbor(p, d))
        ensures m.At(Neighbor(p, d)).visited
      {
        if !m.At(Neighbor(p, d)).visited {
          CandidatesComplete(m, p, d);
        }
      }
    }
  }

  /** On a grid where every visited cell has all its neighbours visited, the
      whole grid is visited as soon as (0, 0) is. */
  lemma {:induction false} ClosedGridAllVisited(m: Maze, q: Pos)
    requires m.Valid() && m.InBounds(q) && m.At(Pos(0, 0)).visited && ClosedExcept(m, {})
    ensures m.At(q).visited
    decreases q.col + q.row
  {
    if q.row > 0 {
      var u := Pos(q.col, q.row - 1);
      ClosedGridAllVisited(m, u);
      assert Neighbor(u, Down) == q;
    } else if q.col > 0 {
      var l := Pos(q.col - 1, q.row);
      ClosedGridAllVisited(m, l);
      assert Neighbor(l, Right) == q;
    }
  }

  /** Carving from (0, 0) on a grid with no visited cell visits every cell. */
  lemma CarveVisitsAll(m: Maze, draws: nat -> nat, t: nat)
    requires m.Valid() && m.cols >= 1 && m.rows >= 1
    requires forall q :: m.InBounds(q) ==> !m.At(q).visited
    ensures var r := BreakWalls(m, m.Entrance(), draws, t).maze;
      forall q :: r.InBounds(q) ==> r.At(q).visited
  {
    var r := BreakWalls(m, m.Entrance(), draws, t).maze;
    BreakWallsCovers(m, m.Entrance(), {}, draws, t);
    forall q | r.InBounds(q)
      ensures r.At(q).visited
    {
      ClosedGridAllVisited(r, q);
    }
  }

  /** Carving from (0, 0) on a grid with no open internal wall and no visited
      cell opens one edge fewer than the cells it visits. */
  lemma CarveCountsAll(m: Maze, draws: nat -> nat, t: nat)
    requires m.Valid() && m.cols >= 1 && m.rows >= 1 && OpenEdges(m) == {}
    requires forall q :: m.InBounds(q) ==> !m.At(q).visited
    ensures var r := BreakWalls(m, m.Entrance(), draws, t).maze;
      |OpenEdges(r)| + |Unvisited(r)| + 1 == m.cols * m.rows
  {
    var root := m.Entrance();
    assert |Unvisited(m)| == m.cols * m.rows by {
      assert Unvisited(m) == Positions(m.cols, m.rows);
      PositionsCard(m.cols, m.rows);
    }
    assert EdgesAmongVisited(m, root) by {
      forall q, d | Passable(m, q, d)
        ensures false
      {
        PassableIsOpenEdge(m, q, d);
      }
    }
    BreakWallsCountsEdges(m, root, draws, t);
  }

  /** Carving from (0, 0) on a grid with no open internal wall and no visited
      cell visits every cell, keeps walls consistent, makes every cell
      reachable from (0, 0) and opens exactly cols * rows - 1 edges: the open
      edges form a spanning tree of the grid. */
  lemma CarveBuildsSpanningTree(m: Maze, draws: nat -> nat, t: nat)
    requires m.Valid() && m.cols >= 1 && m.rows >= 1
    requires Symmetric(m) && OpenEdges(m) == {}
    requires forall q :: m.InBounds(q) ==> !m.At(q).visited
    ensures var r := BreakWalls(m, m.Entrance(), draws, t).maze;
      && SameShape(m, r)
      && Symmetric(r)
      && (forall q :: r.InBounds(q) ==> r.At(q).visited)
      && (forall q :: r.InBounds(q) ==> Reachable(r, m.Entrance(), q))
      && |OpenEdges(r)| == m.cols * m.rows - 1
  {
    var root := m.Entrance();
    var r := BreakWalls(m, root, draws, t).maze;
    BreakWallsKeepsSymmetric(m, root, draws, t);
    CarveVisitsAll(m, draws, t);
    CarveCountsAll(m, draws, t);
    assert Unvisited(r) == {};
    ReachableRefl(m, root);
    BreakWallsConnects(m, root, root, draws, t);
  }
}
