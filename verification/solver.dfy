/** The solver: a depth-first search with backtracking from the first cell to
    the last one, which moves out of a cell only where that cell's own wall
    is down. */
module Solver {
  import opened Grid

  /** Move offsets in the order the solver tries them: right, down, left, up. */
  const SolveOrder: seq<(int, int)> := [(1, 0), (0, 1), (-1, 0), (0, -1)]

  /** The solver's test for leaving `p` by offset `d`, branch for branch:
      the wall of `p` on the side `d` points to must be down, and the
      coordinate `d` changes must have room in that direction. */
  function MoveAllowed(m: Maze, p: Pos, d: (int, int)): bool
    requires Valid(m) && InBounds(m, p)
  {
    var cell := At(m, p);
    if !cell.hasTopWall && d.1 < 0 && p.row > 0 then true
    else if !cell.hasBottomWall && d.1 > 0 && p.row < m.numRows - 1 then true
    else if !cell.hasLeftWall && d.0 < 0 && p.col > 0 then true
    else if !cell.hasRightWall && d.0 > 0 && p.col < m.numCols - 1 then true
    else false
  }

  /** The move across side `s` is allowed exactly when it follows a
      passage: the wall of `p` on that side is down and the neighbour there
      lies inside the grid. */
  lemma MoveAllowedIsPassage(m: Maze, p: Pos, s: Side)
    requires Valid(m) && InBounds(m, p)
    ensures MoveAllowed(m, p, Offset(s)) <==> Passage(m, p, s)
  {
    match s
    case Top =>
    case Bottom =>
    case Left =>
    case Right =>
  }

  /** Where the move across side `s` stands in `SolveOrder`. */
  function SolveIndex(s: Side): (k: nat)
    ensures k < 4 && SolveOrder[k] == Offset(s)
  {
    match s
    case Right => 0
    case Bottom => 1
    case Left => 2
    case Top => 3
  }

  /** The side the move `SolveOrder[k]` crosses. */
  function OrderSide(k: nat): (s: Side)
    requires k < 4
    ensures Offset(s) == SolveOrder[k] && SolveIndex(s) == k
  {
    if k == 0 then Right else if k == 1 then Bottom else if k == 2 then Left else Top
  }

  /** The move `SolveOrder[k]` from `p` is skipped: it leaves the grid,
      reaches a marked cell or is not allowed. */
  predicate Skipped(m: Maze, p: Pos, k: nat)
    requires Valid(m) && InBounds(m, p) && k < 4
  {
    var n := Step(p, SolveOrder[k]);
    !InBounds(m, n) || At(m, n).visited || !MoveAllowed(m, p, SolveOrder[k])
  }

  /** What a search returns: whether it reached the goal, the maze with the
      marks it left, and how many cells it entered (calls of the search). */
  datatype Search = Search(found: bool, maze: Maze, calls: nat)

  /** Goal bookkeeping for a search that marks `p` (giving `m1`) and then
      tries the moves from it (giving `r`). */
  lemma EnterThenTry(m: Maze, m1: Maze, r: Search, p: Pos)
    requires Valid(m) && Valid(m1) && InBounds(m, p) && p != Goal(m)
    requires m1.numCols == m.numCols && m1.numRows == m.numRows
    requires SameWalls(m, m1) && Visited(m1) == Visited(m) + {p}
    requires SameWalls(m1, r.maze) && Visited(m1) <= Visited(r.maze)
    requires r.found <==> Goal(m1) in Visited(r.maze) - Visited(m1)
    ensures SameWalls(m, r.maze)
    ensures Visited(m) + {p} <= Visited(r.maze)
    ensures r.found <==> Goal(m) in (Visited(r.maze) - Visited(m)) + {p}
  {
    SameWallsTransitive(m, m1, r.maze);
    assert Goal(m1) == Goal(m);
    EnterFound(Visited(m), Visited(m1), Visited(r.maze), p, Goal(m), r.found);
  }

  /** The same on plain sets: `a` before marking, `b` after it, `c` after
      the moves; `g` is the goal. */
  lemma EnterFound<T>(a: set<T>, b: set<T>, c: set<T>, p: T, g: T, found: bool)
    requires b == a + {p} && b <= c && g != p
    requires found <==> g in c - b
    ensures a + {p} <= c
    ensures found <==> g in (c - a) + {p}
  {
    assert c - b == (c - a) - {p};
  }

  /** Entering `p`: mark it; stop with success at the goal, otherwise try
      the four moves in order. */
  function SolveFrom(m: Maze, p: Pos): (r: Search)
    requires Valid(m) && InBounds(m, p)
    ensures Valid(r.maze) && r.maze.numCols == m.numCols && r.maze.numRows == m.numRows
    ensures SameWalls(m, r.maze)
    ensures Visited(m) + {p} <= Visited(r.maze)
    ensures r.found <==> Goal(m) in (Visited(r.maze) - Visited(m)) + {p}
    ensures p == Goal(m) ==> r.calls == 1 && Visited(r.maze) == Visited(m) + {p}
    decreases Unvisited(m) - {p}, 1, 0
  {
    var m1 := MarkVisited(m, p);
    if p == Goal(m) then
      Search(true, m1, 1)
    else
      var r := TryMoves(m1, p, 0);
      EnterThenTry(m, m1, r, p);
      Search(r.found, r.maze, r.calls + 1)
  }

  /** The solver's loop over the moves `SolveOrder[k..]` from `p`: skip a
      move that leaves the grid, reaches a visited cell or is not allowed;
      otherwise search from the neighbour, and stop at the first success. */
  function TryMoves(m: Maze, p: Pos, k: nat): (r: Search)
    requires Valid(m) && InBounds(m, p) && k <= 4
    ensures Valid(r.maze) && r.maze.numCols == m.numCols && r.maze.numRows == m.numRows
    ensures SameWalls(m, r.maze)
    ensures Visited(m) <= Visited(r.maze)
    ensures r.found <==> Goal(m) in Visited(r.maze) - Visited(m)
    decreases Unvisited(m), 0, 4 - k
  {
    if k == 4 then
      Search(false, m, 0)
    else if Skipped(m, p, k) then
      TryMoves(m, p, k + 1)
    else
      var r := SolveFrom(m, Step(p, SolveOrder[k]));
      if r.found then
        r
      else
        assert Unvisited(r.maze) < Unvisited(m);
        var rest := TryMoves(r.maze, p, k + 1);
        SameWallsTransitive(m, r.maze, rest.maze);
        assert Goal(r.maze) == Goal(m);
        assert Goal(m) !in Visited(r.maze) - Visited(m);
        Search(rest.found, rest.maze, r.calls + rest.calls)
  }

  /** The public entry point: search from the first cell. */
  function Solve(m: Maze): (r: Search)
    requires Valid(m) && InBounds(m, Root)
    ensures Valid(r.maze) && r.maze.numCols == m.numCols && r.maze.numRows == m.numRows
    ensures SameWalls(m, r.maze)
    ensures Visited(m) + {Root} <= Visited(r.maze)
    ensures r.found <==> Goal(m) in (Visited(r.maze) - Visited(m)) + {Root}
  {
    SolveFrom(m, Root)
  }

  // ---- Each call of the search enters a cell not entered before ----

  /** The search `r` started on `m` made as many calls as it marked new
      cells, plus `extra`. */
  ghost predicate CountsEntered(m: Maze, r: Search, extra: nat)
    requires Valid(m) && Valid(r.maze)
  {
    r.calls == |Visited(r.maze) - Visited(m)| + extra
  }

  lemma NestedDifference<T>(a: set<T>, b: set<T>, c: set<T>)
    requires a <= b <= c
    ensures |c - a| == |c - b| + |b - a|
  {
    assert c - a == (c - b) + (b - a);
    assert (c - b) * (b - a) == {};
  }

  /** Counting for entering `p` and then trying the moves, on plain sets:
      `a` before marking, `b` after it, `c` after the moves. */
  lemma EnterCounts<T>(a: set<T>, b: set<T>, c: set<T>, p: T, calls: nat)
    requires b == a + {p} && b <= c
    requires calls == |c - b|
    ensures calls + 1 == |c - a| + if p in a then 1 else 0
  {
    NestedDifference(a, b, c);
    if p in a {
      assert b - a == {};
    } else {
      assert b - a == {p};
    }
  }

  /** Counting for a move's search (from `a` to `b`) followed by the
      remaining moves (from `b` to `c`). */
  lemma TakeCounts<T>(a: set<T>, b: set<T>, c: set<T>, calls1: nat, calls2: nat)
    requires a <= b <= c
    requires calls1 == |b - a| && calls2 == |c - b|
    ensures calls1 + calls2 == |c - a|
  {
    NestedDifference(a, b, c);
  }

  /** A search from `p` calls itself once per cell it newly marks, and once
      more for `p` when `p` was already marked. */
  lemma {:induction false} SolveFromCounts(m: Maze, p: Pos)
    requires Valid(m) && InBounds(m, p)
    ensures CountsEntered(m, SolveFrom(m, p), if p in Visited(m) then 1 else 0)
    decreases Unvisited(m) - {p}, 1, 0, 1
  {
    if p == Goal(m) {
      GoalCounts(m, p);
    } else {
      EnterCountsFrom(m, p);
    }
  }

  lemma GoalCounts(m: Maze, p: Pos)
    requires Valid(m) && InBounds(m, p) && p == Goal(m)
    ensures CountsEntered(m, SolveFrom(m, p), if p in Visited(m) then 1 else 0)
  {
    var m1 := MarkVisited(m, p);
    assert SolveFrom(m, p).maze == m1 && SolveFrom(m, p).calls == 1;
    EnterCounts(Visited(m), Visited(m1), Visited(m1), p, 0);
  }

  lemma {:induction false} EnterCountsFrom(m: Maze, p: Pos)
    requires Valid(m) && InBounds(m, p) && p != Goal(m)
    ensures CountsEntered(m, SolveFrom(m, p), if p in Visited(m) then 1 else 0)
    decreases Unvisited(m) - {p}, 1, 0, 0
  {
    var m1 := MarkVisited(m, p);
    var r := TryMoves(m1, p, 0);
    assert SolveFrom(m, p).maze == r.maze;
    assert SolveFrom(m, p).calls == r.calls + 1;
    TryMovesCounts(m1, p, 0);
    EnterCounts(Visited(m), Visited(m1), Visited(r.maze), p, r.calls);
  }

  /** The moves from `p` make one call per cell they newly mark. */
  lemma {:induction false} TryMovesCounts(m: Maze, p: Pos, k: nat)
    requires Valid(m) && InBounds(m, p) && k <= 4
    ensures CountsEntered(m, TryMoves(m, p, k), 0)
    decreases Unvisited(m), 0, 4 - k, 2
  {
    if k == 4 {
      assert TryMoves(m, p, k).maze == m && TryMoves(m, p, k).calls == 0;
    } else if Skipped(m, p, k) {
      assert TryMoves(m, p, k) == TryMoves(m, p, k + 1);
      TryMovesCounts(m, p, k + 1);
    } else {
      TakenMoveCounts(m, p, k);
    }
  }

  lemma {:induction false} TakenMoveCounts(m: Maze, p: Pos, k: nat)
    requires Valid(m) && InBounds(m, p) && k < 4 && !Skipped(m, p, k)
    ensures CountsEntered(m, TryMoves(m, p, k), 0)
    decreases Unvisited(m), 0, 4 - k, 1
  {
    var n := Step(p, SolveOrder[k]);
    var r1 := SolveFrom(m, n);
    if r1.found {
      assert n in Unvisited(m);
      SolveFromCounts(m, n);
      assert TryMoves(m, p, k) == r1;
    } else {
      FailedMoveCounts(m, p, k);
    }
  }

  /** A move whose search fails is counted together with the moves after
      it. */
  lemma {:induction false} FailedMoveCounts(m: Maze, p: Pos, k: nat)
    requires Valid(m) && InBounds(m, p) && k < 4 && !Skipped(m, p, k)
    requires !SolveFrom(m, Step(p, SolveOrder[k])).found
    ensures CountsEntered(m, TryMoves(m, p, k), 0)
    decreases Unvisited(m), 0, 4 - k, 0
  {
    var n := Step(p, SolveOrder[k]);
    var r1 := SolveFrom(m, n);
    assert n in Unvisited(m);
    SolveFromCounts(m, n);
    assert Unvisited(r1.maze) < Unvisited(m);
    TryMovesCounts(r1.maze, p, k + 1);
    var rest := TryMoves(r1.maze, p, k + 1);
    FailedMoveUnfolds(m, p, k);
    SearchesAdd(m, r1, rest, TryMoves(m, p, k));
  }

  /** The result of a move whose search fails, in terms of that search and
      the moves after it. */
  lemma FailedMoveUnfolds(m: Maze, p: Pos, k: nat)
    requires Valid(m) && InBounds(m, p) && k < 4 && !Skipped(m, p, k)
    requires !SolveFrom(m, Step(p, SolveOrder[k])).found
    ensures var r1 := SolveFrom(m, Step(p, SolveOrder[k]));
      var rest := TryMoves(r1.maze, p, k + 1);
      TryMoves(m, p, k).maze == rest.maze && TryMoves(m, p, k).calls == r1.calls + rest.calls
  {
  }

  /** Counting for a search `r1` followed by a search `rest` that started
      where `r1` stopped. */
  lemma SearchesAdd(m: Maze, r1: Search, rest: Search, total: Search)
    requires Valid(m) && Valid(r1.maze) && Valid(rest.maze)
    requires Visited(m) <= Visited(r1.maze) <= Visited(rest.maze)
    requires CountsEntered(m, r1, 0) && CountsEntered(r1.maze, rest, 0)
    requires total.maze == rest.maze && total.calls == r1.calls + rest.calls
    ensures CountsEntered(m, total, 0)
  {
    TakeCounts(Visited(m), Visited(r1.maze), Visited(rest.maze), r1.calls, rest.calls);
  }
}
