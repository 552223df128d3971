/**
 The maze as its constructor builds it: a grid of fresh cells, the entrance
 and exit opened, a spanning tree carved from (0, 0), and the visited flags
 cleared so that the solver can reuse them. Drawing and animation are not
 modelled; the random generator is the stream `draws` (see module Generator).
 */
module Construction {
  import opened Grid
  import opened Generator
  import opened Solver

  /** The maze a `cols` by `rows` constructor call leaves behind. */
  function NewMaze(cols: nat, rows: nat, draws: nat -> nat): (m: Maze)
    requires cols >= 1 && rows >= 1
    ensures m.Valid() && m.cols == cols && m.rows == rows
  {
    var blank := CreateCells(cols, rows);
    var doors := BreakEntranceAndExit(blank);
    var carved := BreakWalls(doors, doors.Entrance(), draws, 0).maze;
    ResetVisited(carved)
  }

  /** A perfect maze: consistent walls, the entrance's top and the exit's
      bottom open and every other outer wall standing, every cell reachable
      from the entrance, and exactly
      cols * rows - 1 open internal walls (a connected graph on cols * rows
      cells with that many edges is a spanning tree). */
  ghost predicate Perfect(m: Maze)
    requires m.Valid() && m.cols >= 1 && m.rows >= 1
  {
    && Symmetric(m)
    && !HasWall(m.At(m.Entrance()), Up)
    && !HasWall(m.At(m.Exit()), Down)
    && BoundaryClosed(m)
    && (forall q :: m.InBounds(q) ==> Reachable(m, m.Entrance(), q))
    && |OpenEdges(m)| == m.cols * m.rows - 1
  }

  /** Clearing the visited flags keeps a maze perfect. */
  lemma ResetKeepsPerfect(m: Maze)
    requires m.Valid() && m.cols >= 1 && m.rows >= 1 && Perfect(m)
    ensures Perfect(ResetVisited(m))
  {
    var r := ResetVisited(m);
    ResetVisitedFacts(m);
    ResetKeepsDoors(m);
    ResetKeepsReachable(m);
    assert BoundaryClosed(r) by {
      SameWallsOnlyOpened(m, r);
      BoundaryClosedKept(m, r);
    }
  }

  /** Clearing the visited flags leaves the entrance and exit open. */
  lemma ResetKeepsDoors(m: Maze)
    requires m.Valid() && m.cols >= 1 && m.rows >= 1
    requires !HasWall(m.At(m.Entrance()), Up) && !HasWall(m.At(m.Exit()), Down)
    ensures var r := ResetVisited(m);
      !HasWall(r.At(r.Entrance()), Up) && !HasWall(r.At(r.Exit()), Down)
  {
  }

  /** Clearing the visited flags keeps every cell reachable from the entrance. */
  lemma ResetKeepsReachable(m: Maze)
    requires m.Valid() && m.cols >= 1 && m.rows >= 1
    requires forall q :: m.InBounds(q) ==> Reachable(m, m.Entrance(), q)
    ensures var r := ResetVisited(m);
      forall q :: r.InBounds(q) ==> Reachable(r, r.Entrance(), q)
  {
    var r := ResetVisited(m);
    SameWallsOnlyOpened(m, r);
    forall q | r.InBounds(q)
      ensures Reachable(r, r.Entrance(), q)
    {
      ReachableMono(m, r, m.Entrance(), q);
    }
  }

  /** Whatever the random draws, the constructed maze is perfect and no cell
      is left marked visited. */
  lemma NewMazeIsPerfect(cols: nat, rows: nat, draws: nat -> nat)
    requires cols >= 1 && rows >= 1
    ensures Perfect(NewMaze(cols, rows, draws))
    ensures var m := NewMaze(cols, rows, draws);
      forall q :: m.InBounds(q) ==> !m.At(q).visited
  {
    var blank := CreateCells(cols, rows);
    var doors := BreakEntranceAndExit(blank);
    assert Symmetric(doors) && OpenEdges(doors) == {} by {
      CreatedGridIsClosed(cols, rows);
      EntranceAndExitKeepGraph(blank);
    }
    EntranceAndExitOnlyOpenings(cols, rows);
    var carved := BreakWalls(doors, doors.Entrance(), draws, 0).maze;
    CarvedIsPerfect(doors, draws);
    ResetKeepsPerfect(carved);
  }

  /** Carving from (0, 0) once the entrance and exit are open, and no other
      outer wall is, yields a perfect maze. */
  lemma CarvedIsPerfect(doors: Maze, draws: nat -> nat)
    requires doors.Valid() && doors.cols >= 1 && doors.rows >= 1
    requires Symmetric(doors) && OpenEdges(doors) == {}
    requires forall q :: doors.InBounds(q) ==> !doors.At(q).visited
    requires !HasWall(doors.At(doors.Entrance()), Up) && !HasWall(doors.At(doors.Exit()), Down)
    requires BoundaryClosed(doors)
    ensures Perfect(BreakWalls(doors, doors.Entrance(), draws, 0).maze)
  {
    var carved := BreakWalls(doors, doors.Entrance(), draws, 0).maze;
    assert carved.cols == doors.cols && carved.rows == doors.rows;
    assert Symmetric(carved) && |OpenEdges(carved)| == carved.cols * carved.rows - 1 by {
      CarveBuildsSpanningTree(doors, draws, 0);
    }
    assert forall q :: carved.InBounds(q) ==> Reachable(carved, carved.Entrance(), q) by {
      CarveBuildsSpanningTree(doors, draws, 0);
      assert carved.Entrance() == doors.Entrance();
    }
    DoorsStayOpen(doors, carved);
    BoundaryClosedKept(doors, carved);
  }

  /** Opening more walls keeps the entrance and exit open. */
  lemma DoorsStayOpen(m: Maze, m': Maze)
    requires m.Valid() && m.cols >= 1 && m.rows >= 1 && WallsOnlyOpened(m, m')
    requires !HasWall(m.At(m.Entrance()), Up) && !HasWall(m.At(m.Exit()), Down)
    ensures !HasWall(m'.At(m'.Entrance()), Up) && !HasWall(m'.At(m'.Exit()), Down)
  {
  }

  /** The solver always finds the exit of a constructed maze. */
  lemma NewMazeIsSolved(cols: nat, rows: nat, draws: nat -> nat)
    requires cols >= 1 && rows >= 1
    ensures Solve(NewMaze(cols, rows, draws)).found
  {
    var m := NewMaze(cols, rows, draws);
    NewMazeIsPerfect(cols, rows, draws);
    SolveFindsExitIffReachable(m);
  }

  /** A 1 x 1 maze has no internal wall to open: the carve takes no step and
      the only openings are the entrance and the exit. */
  lemma SingleCellMaze(draws: nat -> nat)
    ensures var m := NewMaze(1, 1, draws);
      && OpenEdges(m) == {}
      && !m.At(Pos(0, 0)).hasTopWall && !m.At(Pos(0, 0)).hasBottomWall
      && m.At(Pos(0, 0)).hasLeftWall && m.At(Pos(0, 0)).hasRightWall
      && Solve(m).found
  {
    NewMazeIsPerfect(1, 1, draws);
    NewMazeIsSolved(1, 1, draws);
  }
}
