/**
 Maze solving: a depth-first search with backtracking from the entrance
 (0, 0) to the exit (cols - 1, rows - 1). From each cell it tries the
 directions left, up, right, down, stepping only across a wall that is open
 on both sides into a cell not yet visited, and stops at the first success.
 It reuses the cells' visited flags and never touches a wall.
 */
module Solver {
  import opened Grid

  /** Whether the exit was found, and the grid with the flags the search set. */
  datatype Outcome = Outcome(found: bool, maze: Maze)

  /** The recursive search from `p`: marks `p` visited, succeeds at once if
      `p` is the exit, and otherwise tries the four directions. */
  function SolveFrom(m: Maze, p: Pos): (r: Outcome)
    requires m.Valid() && m.InBounds(p)
    ensures SameWalls(m, r.maze) && VisitedGrows(m, r.maze)
    ensures r.maze.At(p).visited
    ensures p == m.Exit() ==> r.found && Unvisited(r.maze) == Unvisited(m) - {p}
    decreases |Unvisited(m)|, if m.At(p).visited then 2 else 0, 0
  {
    var m1 := MarkVisited(m, p);
    if p == m.Exit() then Outcome(true, m1)
    else
      var o := TryMoves(m1, p, 0);
      SearchStepsCompose(m, m1, o.maze);
      o
  }

  /** The direction blocks of the search from `p`, from the `k`-th direction of
      left, up, right, down on: the first move that leads to the exit ends the
      search; a move that does not is undone and the next direction tried. */
  function TryMoves(m: Maze, p: Pos, k: nat): (r: Outcome)
    requires m.Valid() && m.InBounds(p) && k <= 4
    ensures SameWalls(m, r.maze) && VisitedGrows(m, r.maze)
    decreases |Unvisited(m)|, 1, 4 - k
  {
    if k == 4 then Outcome(false, m)
    else
      var d := Directions[k];
      var n := Neighbor(p, d);
      if Passable(m, p, d) && !m.At(n).visited then
        var o := SolveFrom(m, n);
        UnvisitedShrinks(m, o.maze, n);
        if o.found then o
        else
          var o' := TryMoves(o.maze, p, k + 1);
          SearchStepsCompose(m, o.maze, o'.maze);
          o'
      else
        TryMoves(m, p, k + 1)
  }

  /** The search from the entrance (`solve`). It changes no wall, and when it
      reports success the exit is reachable from the entrance; on a 1 x 1 grid
      the entrance is the exit and it succeeds at once. */
  function Solve(m: Maze): (r: Outcome)
    requires m.Valid() && m.cols >= 1 && m.rows >= 1
    ensures SameWalls(m, r.maze)
    ensures r.found ==> Reachable(m, m.Entrance(), m.Exit())
    ensures m.cols == 1 && m.rows == 1 ==> r.found
  {
    SolveFromSound(m, m.Entrance());
    SolveFrom(m, m.Entrance())
  }

  // ---------------------------------------------------------------------
  // Soundness: success means a path
  // ---------------------------------------------------------------------

  /** When the search from `p` reports success, the exit can be reached from
      `p` through walls open on both sides. */
  lemma {:induction false} SolveFromSound(m: Maze, p: Pos)
    requires m.Valid() && m.InBounds(p)
    ensures SolveFrom(m, p).found ==> Reachable(m, p, m.Exit())
    decreases |Unvisited(m)|, if m.At(p).visited then 2 else 0, 0
  {
    var m1 := MarkVisited(m, p);
    if p == m.Exit() {
      ReachableRefl(m, p);
    } else {
      TryMovesSound(m1, p, 0);
      if TryMoves(m1, p, 0).found {
        ReachableSameWalls(m, m1, p, m.Exit());
      }
    }
  }

  lemma {:induction false} TryMovesSound(m: Maze, p: Pos, k: nat)
    requires m.Valid() && m.InBounds(p) && k <= 4
    ensures TryMoves(m, p, k).found ==> Reachable(m, p, m.Exit())
    decreases |Unvisited(m)|, 1, 4 - k
  {
    if k < 4 {
      var d := Directions[k];
      var n := Neighbor(p, d);
      if Passable(m, p, d) && !m.At(n).visited {
        var o := SolveFrom(m, n);
        UnvisitedShrinks(m, o.maze, n);
        if o.found {
          MoveSound(m, p, d);
        } else {
          assert o.maze.Exit() == m.Exit();
          TryMovesSound(o.maze, p, k + 1);
          ReachableSameWalls(m, o.maze, p, m.Exit());
        }
      } else {
        TryMovesSound(m, p, k + 1);
      }
    }
  }

  /** A successful search from the cell one open step away from `p` means
      the exit is reachable from `p`. */
  lemma {:induction false} MoveSound(m: Maze, p: Pos, d: Dir)
    requires m.Valid() && m.InBounds(p) && Passable(m, p, d) && !m.At(Neighbor(p, d)).visited
    ensures SolveFrom(m, Neighbor(p, d)).found ==> Reachable(m, p, m.Exit())
    decreases |Unvisited(m)|, 1, 0
  {
    var n := Neighbor(p, d);
    if SolveFrom(m, n).found {
      SolveFromSound(m, n);
      NeighborIsAdjacent(p, d);
      ReachableStepBack(m, p, n, m.Exit());
    }
  }

  // ---------------------------------------------------------------------
  // The search only enters cells it can reach
  // ---------------------------------------------------------------------

  /** Every cell the search from `p` marks visited can be reached from `p`
      through walls open on both sides. */
  lemma {:induction false} SolveFromStaysConnected(m: Maze, p: Pos)
    requires m.Valid() && m.InBounds(p)
    ensures forall q :: m.InBounds(q) && !m.At(q).visited && SolveFrom(m, p).maze.At(q).visited ==>
      Reachable(m, p, q)
    decreases |Unvisited(m)|, if m.At(p).visited then 2 else 0, 0
  {
    var m1 := MarkVisited(m, p);
    var r := SolveFrom(m, p).maze;
    if p != m.Exit() {
      TryMovesStaysConnected(m1, p, 0);
    }
    forall q | m.InBounds(q) && !m.At(q).visited && r.At(q).visited
      ensures Reachable(m, p, q)
    {
      if q == p {
        ReachableRefl(m, p);
      } else {
        ReachableSameWalls(m, m1, p, q);
      }
    }
  }

  lemma {:induction false} TryMovesStaysConnected(m: Maze, p: Pos, k: nat)
    requires m.Valid() && m.InBounds(p) && k <= 4
    ensures forall q :: m.InBounds(q) && !m.At(q).visited && TryMoves(m, p, k).maze.At(q).visited ==>
      Reachable(m, p, q)
    decreases |Unvisited(m)|, 1, 4 - k
  {
    if k < 4 {
      var d := Directions[k];
      var n := Neighbor(p, d);
      if Passable(m, p, d) && !m.At(n).visited {
        var o := SolveFrom(m, n);
        UnvisitedShrinks(m, o.maze, n);
        SolveFromStaysConnected(m, n);
        NeighborIsAdjacent(p, d);
        if !o.found {
          TryMovesStaysConnected(o.maze, p, k + 1);
        }
        JoinReach(m, o.maze, TryMoves(m, p, k).maze, p, n);
      } else {
        TryMovesStaysConnected(m, p, k + 1);
      }
    }
  }

  /** Cells entered beyond the neighbour `n` are reachable through `n`, and
      cells entered later from `p` are reachable from `p`. */
  lemma JoinReach(m: Maze, o: Maze, r: Maze, p: Pos, n: Pos)
    requires SameWalls(m, o) && SameShape(o, r) && m.InBounds(p) && Step(m, p, n)
    requires forall q :: m.InBounds(q) && !m.At(q).visited && o.At(q).visited ==> Reachable(m, n, q)
    requires forall q :: o.InBounds(q) && !o.At(q).visited && r.At(q).visited ==> Reachable(o, p, q)
    ensures forall q :: m.InBounds(q) && !m.At(q).visited && r.At(q).visited ==> Reachable(m, p, q)
  {
    SameWallsOnlyOpened(m, o);
    forall q | m.InBounds(q) && !m.At(q).visited && r.At(q).visited
      ensures Reachable(m, p, q)
    {
      if o.At(q).visited {
        ReachableStepBack(m, p, n, q);
      } else {
        ReachableMono(o, m, p, q);
      }
    }
  }

  // ---------------------------------------------------------------------
  // Completeness: a reachable exit is found
  // ---------------------------------------------------------------------

  /** Every visited cell outside `open` has all the neighbours it can step to
      visited: `open` holds the cells whose directions are still being tried. */
  ghost predicate OpenClosedExcept(m: Maze, open: set<Pos>)
    requires m.Valid()
  {
    forall q, d :: m.InBounds(q) && m.At(q).visited && q !in open && Passable(m, q, d) ==>
      m.At(Neighbor(q, d)).visited
  }

  /** A search that fails leaves the exit unvisited and no visited cell with
      an open, unvisited neighbour, apart from the cells still being searched. */
  lemma {:induction false} SolveFromComplete(m: Maze, p: Pos, open: set<Pos>)
    requires m.Valid() && m.InBounds(p)
    requires OpenClosedExcept(m, open) && !m.At(m.Exit()).visited
    ensures var r := SolveFrom(m, p);
      r.found || (OpenClosedExcept(r.maze, open) && !r.maze.At(m.Exit()).visited)
    decreases |Unvisited(m)|, if m.At(p).visited then 2 else 0, 0
  {
    var m1 := MarkVisited(m, p);
    if p != m.Exit() {
      OpenClosedMark(m, p, open);
      assert m1.Exit() == m.Exit() && !m1.At(m1.Exit()).visited;
      assert SolveFrom(m, p) == TryMoves(m1, p, 0);
      TryMovesComplete(m1, p, 0, open);
    }
  }

  /** Marking `p` visited keeps every other cell closed; `p` itself is open
      until its directions have been tried. */
  lemma OpenClosedMark(m: Maze, p: Pos, open: set<Pos>)
    requires m.Valid() && m.InBounds(p) && OpenClosedExcept(m, open)
    ensures OpenClosedExcept(MarkVisited(m, p), open + {p})
  {
    var m1 := MarkVisited(m, p);
    forall q, d | m1.InBounds(q) && m1.At(q).visited && q !in open + {p} && Passable(m1, q, d)
      ensures m1.At(Neighbor(q, d)).visited
    {
      assert Passable(m, q, d);
    }
  }

  lemma {:induction false} TryMovesComplete(m: Maze, p: Pos, k: nat, open: set<Pos>)
    requires m.Valid() && m.InBounds(p) && k <= 4 && m.At(p).visited
    requires OpenClosedExcept(m, open + {p}) && !m.At(m.Exit()).visited
    requires forall d :: DirIndex(d) < k && Passable(m, p, d) ==> m.At(Neighbor(p, d)).visited
    ensures var r := TryMoves(m, p, k);
      r.found || (OpenClosedExcept(r.maze, open) && !r.maze.At(m.Exit()).visited)
    decreases |Unvisited(m)|, 1, 4 - k
  {
    if k == 4 {
      AllDirectionsTried(m, p, open);
    } else {
      var d := Directions[k];
      var n := Neighbor(p, d);
      if Passable(m, p, d) && !m.At(n).visited {
        var o := SolveFrom(m, n);
        UnvisitedShrinks(m, o.maze, n);
        SolveFromComplete(m, n, open + {p});
        if !o.found {
          assert o.maze.Exit() == m.Exit() && o.maze.At(p).visited;
          DirectionsTried(m, o.maze, p, k);
          TryMovesComplete(o.maze, p, k + 1, open);
        }
      } else {
        DirectionsTried(m, m, p, k);
        TryMovesComplete(m, p, k + 1, open);
      }
    }
  }

  /** Once every direction from `p` has been tried, `p` is closed too. */
  lemma AllDirectionsTried(m: Maze, p: Pos, open: set<Pos>)
    requires m.Valid() && m.InBounds(p) && OpenClosedExcept(m, open + {p})
    requires forall d :: DirIndex(d) < 4 && Passable(m, p, d) ==> m.At(Neighbor(p, d)).visited
    ensures OpenClosedExcept(m, open)
  {
  }

  /** After the move in the `k`-th direction is done with, the directions up
      to the `k`-th are done with. */
  lemma DirectionsTried(m: Maze, m': Maze, p: Pos, k: nat)
    requires SameWalls(m, m') && VisitedGrows(m, m') && m.InBounds(p) && k < 4
    requires forall d :: DirIndex(d) < k && Passable(m, p, d) ==> m.At(Neighbor(p, d)).visited
    requires Passable(m, p, Directions[k]) ==> m'.At(Neighbor(p, Directions[k])).visited
    ensures forall d :: DirIndex(d) < k + 1 && Passable(m', p, d) ==> m'.At(Neighbor(p, d)).visited
  {
    forall d | DirIndex(d) < k + 1 && Passable(m', p, d)
      ensures m'.At(Neighbor(p, d)).visited
    {
      assert Passable(m, p, d);
      DirectionsCover(d);
    }
  }

  /** Walking through open walls from a visited cell of a grid closed in that
      sense never leaves the visited cells. */
  lemma {:induction false} ClosedWalkStaysVisited(m: Maze, w: seq<Pos>, k: nat)
    requires m.Valid() && IsWalk(m, w) && k < |w|
    requires OpenClosedExcept(m, {}) && m.At(w[0]).visited
    ensures m.At(w[k]).visited
  {
    if k > 0 {
      ClosedWalkStaysVisited(m, w, k - 1);
      var d := DirTo(w[k - 1], w[k]);
      assert Step(m, w[k - 1], w[k]);
      assert Passable(m, w[k - 1], d);
    }
  }

  /** On a grid with every visited flag cleared, as the maze leaves it before
      solving, the search from the entrance succeeds exactly when the exit can
      be reached from the entrance through walls open on both sides. */
  lemma SolveFindsExitIffReachable(m: Maze)
    requires m.Valid() && m.cols >= 1 && m.rows >= 1
    requires forall q :: m.InBounds(q) ==> !m.At(q).visited
    ensures Solve(m).found <==> Reachable(m, m.Entrance(), m.Exit())
  {
    var root := m.Entrance();
    var r := Solve(m);
    SolveFromComplete(m, root, {});
    if !r.found && Reachable(m, root, m.Exit()) {
      SameWallsOnlyOpened(m, r.maze);
      ReachableMono(m, r.maze, root, m.Exit());
      var w :| IsWalk(r.maze, w) && w[0] == root && w[|w| - 1] == m.Exit();
      ClosedWalkStaysVisited(r.maze, w, |w| - 1);
    }
  }
}
