# Maze generation and solving, modelled in Dafny

The modelled program builds a rectangular maze of `cols` by `rows` cells and
solves it. Each cell has four walls (left, top, right, bottom) and a
`visited` flag. The cells are indexed `[col][row]`, and rows grow downwards.
The maze is built in four steps:

1. A grid of fresh cells is created, each with all four walls standing and
   the flag cleared.
2. The entrance is opened: the top wall of cell (0, 0). So is the exit: the
   bottom wall of cell (cols - 1, rows - 1).
3. A spanning tree is carved with a randomized recursive backtracker started
   at (0, 0). From the current cell it lists the unvisited neighbours in the
   order left, up, right, down. It picks one at random and takes down the wall
   between the two cells on both sides. It then carves on from the picked cell,
   and repeats until no neighbour is left.
4. The visited flags are cleared again.

The solver is a depth-first search from the entrance. It tries left, up,
right and down in that order. It steps only across a wall that is open on
both sides, and only into a cell not yet visited. It succeeds as soon as it
stands on the exit.

The Dafny project has four modules:

- `Grid` (grid.dfy): cells, positions, the grid record, open edges, walks,
  grid creation and the reset of the visited flags.
- `Generator` (carve.dfy): opening the entrance and exit, the carving
  candidates, knocking down a wall pair, and the backtracker with its
  invariants.
- `Solver` (solve.dfy): the search, with soundness and completeness.
- `Construction` (maze.dfy): the constructor pipeline and the end-to-end
  theorems. Every constructed maze is a perfect maze, and the solver always
  finds its exit.

Each step is a pure function over an immutable `Maze` value. The random
generator is replaced by a caller-supplied stream `draws: nat -> nat`. The
`t`-th pick takes candidate `draws(t) % |candidates|`. Every sequence of
picks comes from some stream, so what is proved holds for every run of the
random generator.

## Model

| member | source | states |
|---|---|---|
| `Grid.CreateCells` | maze.py:35-40 | The grid has `cols` columns of `rows` cells. Every cell has all four walls up and is unvisited. |
| `Grid.CreatedGridIsClosed` | maze.py:35-40 | A fresh grid has consistent walls and no crossable internal edge. All of its `cols * rows` cells are unvisited. |
| `Grid.PositionsCard` | maze.py:36-40 | The grid has exactly `cols * rows` positions. |
| `Grid.MarkVisited` | maze.py:74 | Setting `visited` on a cell changes no wall and no other cell. The unvisited set loses exactly that cell. |
| `Grid.ResetVisited` | maze.py:123-126 | After the reset no cell is visited, and every wall flag of every cell is as before. |
| `Grid.ResetVisitedFacts` | maze.py:123-126 | After the reset every position of the grid is unvisited. The maze's graph and the consistency of its walls are unchanged. |
| `Grid.ResetVisitedIdempotent` | maze.py:123-126 | Resetting twice gives the same grid as resetting once. |
| `Generator.BreakEntranceAndExit` | maze.py:61-69 | The top wall of (0, 0) and the bottom wall of (cols - 1, rows - 1) are down. Every other wall flag and every visited flag is unchanged. |
| `Generator.EntranceAndExitKeepGraph` | maze.py:61-69 | Both openings face outward. The set of crossable internal edges is unchanged, consistent walls stay consistent, and no wall goes up. |
| `Generator.EntranceAndExitKeepEdges` | maze.py:61-69 | Opening the entrance and exit leaves the crossable internal edges as they were. |
| `Generator.EntranceAndExitKeepSymmetric` | maze.py:61-69 | Opening the entrance and exit keeps the walls between neighbours consistent. |
| `Generator.EntranceAndExitOnlyOpenings` | maze.py:61-69 | On a fresh grid, after the two doors are broken, every other outer wall still stands. |
| `Generator.Candidate` | maze.py:78-92 | One direction's test yields that neighbour exactly when it is inside the grid and unvisited. |
| `Generator.Candidates` | maze.py:76-92 | Every candidate is adjacent to the current cell, inside the grid and unvisited. |
| `Generator.CandidatesComplete` | maze.py:76-92 | Every unvisited neighbour inside the grid is a candidate. |
| `Generator.CandidatesOrdered` | maze.py:78-92 | Candidates come in the order left, up, right, down, with no direction twice. |
| `Generator.OpenPair` | maze.py:103-119 | Exactly two wall flags change: the cell's wall on that side and the neighbour's facing wall. |
| `Generator.OpenPairKeepsSymmetric` | maze.py:103-119 | Taking a wall down on both sides keeps the walls between neighbours consistent. |
| `Generator.KnockDown` | maze.py:101-119 | The coordinate tests take down exactly the wall between the current cell and the picked one, on both sides. No visited flag changes. |
| `Generator.KnockDownOnlyOpens` | maze.py:101-119 | Knocking down a wall pair sets no visited flag, raises no wall, and leaves every outer wall as it was. |
| `Generator.KnockDownKeepsSymmetric` | maze.py:101-119 | Knocking down a wall pair keeps the walls between neighbours consistent. |
| `Generator.KnockDownOpensOneEdge` | maze.py:101-119 | The graph gains exactly the edge to the picked cell, and that edge becomes crossable. |
| `Generator.KnockDownCountsEdges` | maze.py:101-119 | When the picked cell is unvisited, the edge is new: the graph has one edge more and the unvisited set is unchanged. |
| `Generator.BreakWalls` | maze.py:73-121 | The recursive carve terminates, only sets visited flags and only takes walls down. Every outer wall keeps its flag. It leaves its start cell visited. |
| `Generator.CarveFrom` | maze.py:75-121 | The carve's loop terminates, only sets visited flags and only takes walls down. Every outer wall keeps its flag. |
| `Generator.CarveFromVisitsNeighbors` | maze.py:94-96 | The loop returns only when every neighbour of the current cell is visited. |
| `Generator.BreakWallsKeepsSymmetric` | maze.py:73-121 | Carving keeps the walls between neighbours consistent. |
| `Generator.CarveFromKeepsSymmetric` | maze.py:75-121 | Each round of the loop keeps the walls between neighbours consistent. |
| `Generator.BreakWallsCountsEdges` | maze.py:73-121 | A carve from an unvisited cell opens one edge fewer than the cells it visits. Every crossable edge stays between visited cells. |
| `Generator.CarveFromCountsEdges` | maze.py:75-121 | The loop opens exactly one edge per cell it visits. |
| `Generator.BreakWallsConnects` | maze.py:73-121 | Every cell the carve visits can be reached from the root through open walls. |
| `Generator.CarveFromConnects` | maze.py:75-121 | Every cell the loop visits can be reached from the root through open walls. |
| `Generator.BreakWallsCovers` | maze.py:73-121 | When a carve returns, no visited cell has an unvisited neighbour, apart from cells whose carving is still on the stack. |
| `Generator.CarveFromCovers` | maze.py:75-121 | When the loop returns, no visited cell has an unvisited neighbour, apart from the cells still being carved. |
| `Generator.CarveVisitsAll` | maze.py:73-121 | A carve from (0, 0) on a grid with no visited cell visits every cell. |
| `Generator.CarveCountsAll` | maze.py:73-121 | A carve from (0, 0) on a closed, unvisited grid opens one edge fewer than the cells it visits. |
| `Generator.CarveBuildsSpanningTree` | maze.py:73-121 | A carve from (0, 0) on a closed grid visits every cell and reaches every cell from (0, 0). It opens exactly `cols * rows - 1` edges and keeps the walls consistent. |
| `Solver.SolveFrom` | maze.py:128-133 | The search marks its cell visited, never changes a wall, and only sets visited flags. Started on the exit, it succeeds at once and visits that cell only. |
| `Solver.TryMoves` | maze.py:135-187 | Trying the directions in turn never changes a wall and only sets visited flags. |
| `Solver.Solve` | maze.py:189-190 | `solve` changes no wall. When it reports success, the exit is reachable from the entrance. On a 1 x 1 grid it succeeds at once. |
| `Solver.SolveFromSound` | maze.py:128-187 | When the search from a cell succeeds, the exit can be reached from that cell across walls open on both sides. |
| `Solver.MoveSound` | maze.py:135-187 | When the search from the neighbour across an open wall succeeds, the exit can be reached from the current cell. |
| `Solver.TryMovesSound` | maze.py:135-187 | When a direction block succeeds, the exit can be reached from the current cell. |
| `Solver.SolveFromStaysConnected` | maze.py:128-187 | Every cell the search marks visited can be reached from its start by some walk across walls open on both sides. |
| `Solver.TryMovesStaysConnected` | maze.py:135-187 | Every cell entered by the remaining direction blocks can be reached from the current cell. |
| `Solver.SolveFromComplete` | maze.py:128-187 | When the search fails, the exit is still unvisited. No visited cell then has a crossable edge to an unvisited cell, apart from cells still being searched. |
| `Solver.TryMovesComplete` | maze.py:135-187 | When every direction fails, the current cell and all cells visited on the way are closed in the same sense. |
| `Solver.SolveFindsExitIffReachable` | maze.py:189-190 | On a grid with every visited flag cleared, `solve` succeeds exactly when the exit is reachable from the entrance. |
| `Construction.NewMaze` | maze.py:30-33 | The constructor yields a well-formed grid of the requested size. |
| `Construction.CarvedIsPerfect` | maze.py:31-32 | Carving from (0, 0) after opening the entrance and exit gives a perfect maze. Its walls are consistent, both doors are open and every other outer wall stands, every cell is reachable from the entrance, and there are `cols * rows - 1` open edges. |
| `Construction.ResetKeepsPerfect` | maze.py:33 | Clearing the visited flags keeps the maze perfect. |
| `Construction.NewMazeIsPerfect` | maze.py:30-33 | For every outcome of the random picks, the constructed maze is perfect (consistent walls, only the two doors open in the outer wall, every cell reachable, `cols * rows - 1` open edges) and has no visited cell. |
| `Construction.NewMazeIsSolved` | maze.py:189-190 | `solve` on a freshly constructed maze always succeeds. |
| `Construction.SingleCellMaze` | maze.py:30-33 | A 1 x 1 maze has no open internal edge. Its top and bottom walls are open, its left and right walls stand, and `solve` succeeds. |

## Left out

- Drawing and animation (`_draw_cell`, `_animate`, the window, the undo moves of the solver's drawing) have no effect on the cells and are not modelled.
- The pseudo-random generator and its seeding (`random.seed` is skipped for a falsy seed) are not modelled. The picks come from the stream `draws`, and every result holds for every stream.
- The cell class (cell.py) is not part of this model. A cell is a plain record whose fresh value has all walls up and `visited` false.
- Pixel coordinates and cell sizes (`x1`, `y1`, `cell_size_x`, `cell_size_y`) only matter for drawing and are left out.
- The constructor takes `num_rows` before `num_cols`. The model's `NewMaze` takes `cols` first.
- Grids with no column or no row are excluded by requiring `cols >= 1 && rows >= 1`. The source fails with an index error there when it opens the entrance.
- Python's recursion-depth limit on large grids is not modelled. The model's recursion is unbounded.
- Generator.CarveBuildsSpanningTree: the tree is stated as connected with exactly `cols * rows - 1` edges on `cols * rows` cells. That such a graph has no cycle is the standard graph-theory fact; acyclicity is not proved as a separate statement.
