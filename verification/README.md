# Maze engine — a Dafny model

This project models the engine of a small maze program: the `Cell` and
`Maze` classes of `maze.py`. A maze is a grid of `num_cols` columns and
`num_rows` rows. Each cell has four wall flags (top, bottom, left, right)
and a `visited` mark. Construction does four things:
- it allocates the grid with every wall standing;
- it knocks down the top wall of the first cell (the entrance) and the
  bottom wall of the last cell (the exit);
- it carves passages with a randomised recursive backtracker that starts
  at the first cell;
- it clears all visited marks.

`solve` is a depth-first search from cell (0, 0) to the goal cell
(`num_cols - 1`, `num_rows - 1`). It tries the moves right, down, left and
up, in that order.

The model is purely functional:
- **Grid** (`grid.dfy`): cells, sides, positions, the immutable `Maze`
  value, allocation (`CreateCells`), knocking down one wall (`ClearWall`),
  marking (`MarkVisited`) and clearing the marks (`ResetVisited`).
- **Generator** (`generator.dfy`): the entrance and exit, the candidate
  list, the carver (`Carve`, its loop `CarveFrom` and one round of the
  loop `CarveToward`) and the whole constructor (`NewMaze`).
- **Tree** (`tree.dfy`): the passage graph, with the proof that carving
  builds a spanning tree rooted at the entrance.
- **Solver** (`solver.dfy`): the search (`SolveFrom` and its loop
  `TryMoves`) and how many calls it makes.
- **SolverCorrectness** (`correctness.dfy`): soundness and completeness of
  the search, and what happens when it runs on a newly built maze.

Modelling decisions:
- **Random choice.** `random.choice` is replaced by a `Chooser`
  parameter: a function of the current maze, cell and candidate list that
  returns an index, read modulo the number of candidates. Every property
  about carving holds for every chooser, so it holds for every sequence of
  random picks.
- **One-sided walls.** Walls belong to each cell separately. Carving knocks
  down only the wall of the cell it leaves, and the solver checks only the
  wall of the cell it stands on. The graph in `Tree` is therefore directed:
  `Passage(m, p, s)` holds when the wall of `p` on side `s` is down and the
  neighbour across it is inside the grid.
- **Empty grids.** A grid with no columns or no rows makes construction fail
  with `IndexError`. The code fails this way because opening the entrance
  indexes `_cells[0][0]`; the model follows the code, not a separate
  dimension check. A negative dimension behaves like zero, as `range` does.
- **Call counter.** `Search.calls` counts the invocations of `_solve_r`. The
  source has no such counter. The model adds it so that the amount of work
  can be bounded.
- **Unmarked mazes.** The correctness lemmas require a maze on which no cell
  is visited. That is the state construction leaves behind. A second
  `solve` on the same object starts from the marks of the first, and
  `SecondSolveFails` states what then happens.

## Model

| member | source | states |
|---|---|---|
| Grid.FreshCell | maze.py:8-19 | A new cell has all four walls standing and is not visited. |
| Grid.CreateCells | maze.py:90-96 | Allocation gives `cols` columns of `rows` cells each (the shape tests.py checks). Every wall of every cell stands and no cell is visited. |
| Grid.RectSize | maze.py:91-96 | The allocated grid has exactly `cols * rows` cells. |
| Grid.SideOf | maze.py:142-151 | The offset-to-side chain recognises exactly the four unit offsets. The side it returns is the one crossed by that offset; any other offset falls to the error branch. |
| Grid.WithoutWall | maze.py:143-149 | Knocking down one side of a cell takes that wall down. The other three flags and the visited mark are unchanged. |
| Grid.ClearWall | maze.py:142-149 | In the grid, only the chosen flag of the chosen cell changes. No wall is ever put back, and no mark changes. |
| Grid.ClearWallInward | maze.py:142-149 | Knocking down a wall towards a neighbour inside the grid leaves every outward-facing wall standing. |
| Grid.MarkVisited | maze.py:127 | The visited set grows by exactly that cell, and every wall stays as it was. |
| Grid.ResetVisited | maze.py:155-158 | Afterwards no cell is visited, and every wall flag is as before. |
| Generator.NeighbourIndex | maze.py:129 | An offset's position in the carver's neighbour list; an offset not in the list gets 4. |
| Generator.CandidatesFrom | maze.py:131-136 | A suffix of the neighbour list, filtered to the neighbours inside the grid and not yet visited, in list order. |
| Generator.Candidates | maze.py:129-136 | The candidate list holds exactly the in-bounds, unvisited neighbours, each once, in the order left, right, up, down. |
| Generator.CandidatesHaveSides | maze.py:142-151 | Every candidate crosses some side into the grid, so the `raise` branch is never reached. |
| Generator.BreakEntranceAndExit | maze.py:118-122 | Succeeds exactly when both dimensions are positive; otherwise it fails with IndexError. On success, the first cell's top wall and the last cell's bottom wall are down, and every other flag and mark is unchanged. |
| Generator.Carve | maze.py:126-152 | Entering a cell marks it and leaves all earlier marks. Walls are only ever knocked down, and only walls that face a cell of the grid, so the outer frame stays closed. When it returns, every neighbour of each cell it marked, the entered cell included, is visited. |
| Generator.CarveFrom | maze.py:128-141 | The loop ends only when the current cell has no unvisited neighbour. Walls are only knocked down, and only ones facing a cell of the grid. No mark is lost, and every cell marked during the loop ends with all its neighbours visited. |
| Generator.CarveToward | maze.py:142-152 | One round only knocks walls down, each facing a cell of the grid, and marks at least the chosen unvisited neighbour. The current cell and every cell marked in the round end with all their neighbours visited. |
| Generator.NewMaze | maze.py:75-102 | Construction succeeds exactly when both dimensions are positive, and the result has the requested dimensions. No cell is left marked, and the entrance and the exit are open. |
| Generator.OuterWallsStand | maze.py:90-152 | In a constructed maze, every wall on the outside of the grid still stands except the entrance and the exit. |
| Generator.OpeningsSurvive | maze.py:100-102 | Neither carving nor clearing the marks closes the entrance or the exit. |
| Generator.ClosedVisitedCoversGrid | maze.py:127-141 | Suppose the first cell is visited and no visited cell has an unvisited neighbour. Then every cell is visited. |
| Generator.CarveVisitsEveryCell | maze.py:101 | Carving from the first cell of an unmarked grid visits every cell. |
| Tree.CarveFromUnfolds | maze.py:137-152 | The chosen move leads into the grid to an unvisited cell. The loop then continues with that wall down and that cell carved. |
| Tree.CarveStepKeepsShape | maze.py:142-152 | Opening the wall towards a new cell gives that cell exactly one incoming passage and adds exactly one passage. The new cell becomes reachable from the entrance, and the tree shape is kept. |
| Tree.CarveKeepsShape | maze.py:126-152 | Carving from a claimed cell keeps the tree shape over all visited cells: in-degree 0 at the root and 1 elsewhere, one passage per visited cell besides the root, and every visited cell reachable. |
| Tree.OpeningsAreNoPassages | maze.py:118-122 | The entrance and exit openings face outside the grid, so a fresh grid with them open has no passage. |
| Tree.InitialShape | maze.py:90-100 | Before carving, no cell is marked, and the root alone forms a tree. |
| Tree.NewMazeShape | maze.py:90-102 | A constructed maze has the requested dimensions and is a tree over all its cells. |
| Tree.GeneratedMazeIsTree | maze.py:90-102 | A constructed maze is a perfect maze: no passage enters the entrance cell, exactly one enters every other cell, and there are `rows * cols - 1` passages. |
| Tree.GeneratedMazeConnected | maze.py:90-102 | Every cell of a constructed maze is reachable from the entrance along passages in at most `rows * cols` moves. |
| Solver.MoveAllowedIsPassage | maze.py:175-182 | The solver's wall test allows a move exactly when there is a passage. That means the wall of the current cell on that side is down and the neighbour is inside the grid. |
| Solver.SolveIndex | maze.py:169 | The position of each side's move in the solver's order right, down, left, up. |
| Solver.OrderSide | maze.py:169 | The side crossed by the k-th move of that order; the inverse of `SolveIndex`. |
| Solver.SolveFrom | maze.py:163-190 | The search never touches a wall and never clears a mark. It always marks the cell it enters. It reports success exactly when the goal is that cell or a cell it newly marked. Entered at the goal, it stops at once: one call, and only the goal is newly marked. |
| Solver.TryMoves | maze.py:169-190 | The moves from a cell, in order, never touch a wall. They report success exactly when the goal was newly marked. |
| Solver.Solve | maze.py:160-161 | The search starts from the first cell. It never touches a wall, keeps every existing mark and marks the first cell. It reports success exactly when the goal is the first cell or a cell it newly marked. |
| Solver.SolveFromCounts | maze.py:163-190 | The number of calls equals the number of cells newly marked, plus one if the start cell was already marked. |
| Solver.TryMovesCounts | maze.py:169-190 | The moves make exactly one call per cell they newly mark. |
| SolverCorrectness.SolveFromExhausts | maze.py:169-190 | After a failed search, every passage out of every cell it marked leads to a marked cell. |
| SolverCorrectness.SolveFromReaches | maze.py:163-190 | A search started from a reachable cell marks only cells reachable from the entrance. |
| SolverCorrectness.FailureMeansUnreachable | maze.py:190 | Returning False on an unmarked maze means the goal is not reachable at any path length. |
| SolverCorrectness.SolveIsCorrect | maze.py:160-190 | On an unmarked maze, `solve` succeeds exactly when the goal is reachable from the entrance along passages. |
| SolverCorrectness.SolveCallsBounded | maze.py:160-190 | On an unmarked maze, the search calls itself at most once per cell. |
| SolverCorrectness.NewMazeGoalReachable | maze.py:90-102 | In every constructed maze, the goal is reachable from the entrance. |
| SolverCorrectness.NewMazeIsSolved | main.py:14-18 | Solving a newly constructed maze always succeeds, for every sequence of random choices, within `rows * cols` calls. |
| SolverCorrectness.MarkedGoalFails | maze.py:165-174 | If the goal is already marked, a search fails unless the goal is the first cell. |
| SolverCorrectness.SolveTwiceFails | maze.py:160-190 | A solved maze keeps its marks, so solving it again fails unless the goal is the first cell. |
| SolverCorrectness.SecondSolveFails | maze.py:160-190 | On a constructed maze, a second `solve` fails exactly when the grid has more than one cell. |

## Left out

- Drawing is not modelled: `Cell.draw`, `Cell.to_cell`, `Maze._draw_cell`, `Maze._animate` and the pixel-coordinate fields (`x1`, `y1`, `x2`, `y2`, `_x1`, `_y1`, `_cell_size_x`, `_cell_size_y`, `width`, `path_width`). `Cell.draw` reads the wall flags only to choose each line's colour and end points, and writes only the pixel-coordinate fields; no drawing code changes a wall or a mark.
- `graphics.py` is not part of this model: the window and line drawing are pure I/O.
- The command-line driver in `main.py` is left out, apart from the outcome it prints, which `NewMazeIsSolved` states.
- `random.seed` and the random number generator are replaced by the `Chooser` parameter. The properties hold for every chooser, so nothing depends on the seed.
- `time.sleep` in `_animate` is left out: delays have no effect on the result.
- The call to `_reset_cells_visited` after the carving loop (maze.py:153) is left out. The loop only exits through `return`, so that line never runs.
- Generator.Carve: the source recurses once per carved cell, and a large grid would exceed Python's recursion limit. The model has no such limit.
- Solver.SolveFrom: the same applies to the solver's recursion depth.
