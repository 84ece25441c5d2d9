/** What the solver achieves. It is sound: every cell it enters can be
    reached from the first cell along passages, and so can the goal when it
    reports success. It is complete: when it gives up, every passage out of
    a cell it entered leads to a marked cell, so every reachable cell was
    entered. On a newly constructed maze it therefore always succeeds. */
module SolverCorrectness {
  import opened Grid
  import opened Generator
  import opened Tree
  import opened Solver

  /** Every passage out of `b` leads to a marked cell. */
  ghost predicate ExitsVisited(m: Maze, b: Pos)
    requires Valid(m)
  {
    forall s {:trigger Passage(m, b, s)} :: Passage(m, b, s) ==> Neighbour(b, s) in Visited(m)
  }

  /** A failed search from `p` that started on `m` left `p` and every cell
      it marked with all exits marked. */
  ghost predicate EnteredExhausted(m: Maze, r: Search, p: Pos)
    requires Valid(m) && Valid(r.maze)
  {
    !r.found ==> forall b {:trigger ExitsVisited(r.maze, b)} | b in (Visited(r.maze) - Visited(m)) + {p} :: ExitsVisited(r.maze, b)
  }

  /** Failed moves `SolveOrder[k..]` from `p`, started on `m`: each of them
      that follows a passage led to a marked cell, and every cell they marked
      has all exits marked. */
  ghost predicate MovesExhausted(m: Maze, r: Search, p: Pos, k: nat)
    requires Valid(m) && Valid(r.maze)
  {
    !r.found ==>
      && (forall s | k <= SolveIndex(s) && Passage(m, p, s) :: Neighbour(p, s) in Visited(r.maze))
      && (forall b {:trigger ExitsVisited(r.maze, b)} | b in Visited(r.maze) - Visited(m) :: ExitsVisited(r.maze, b))
  }

  /** `b` can be reached from the first cell along passages. */
  ghost predicate Reachable(m: Maze, b: Pos)
    requires Valid(m)
  {
    exists k: nat :: Reaches(m, b, k)
  }

  /** Every cell marked on the way from `m` to `m'` is reachable in `m`. */
  ghost predicate ReachedAll(m: Maze, m': Maze)
    requires Valid(m) && Valid(m')
  {
    forall b {:trigger Reachable(m, b)} | b in Visited(m') - Visited(m) :: Reachable(m, b)
  }

  /** Marking more cells without touching a wall keeps the exits marked. */
  lemma ExitsStayVisited(m: Maze, m': Maze, b: Pos)
    requires SameWalls(m, m') && Visited(m) <= Visited(m')
    requires ExitsVisited(m, b)
    ensures ExitsVisited(m', b)
  {
    SameWallsSamePassages(m, m');
  }

  lemma SameWallsSymmetric(m: Maze, m': Maze)
    requires SameWalls(m, m')
    ensures SameWalls(m', m)
  {
  }

  /** Reachability depends on the walls alone. */
  lemma ReachableSameWalls(m: Maze, m': Maze, b: Pos)
    requires SameWalls(m, m') && Reachable(m, b)
    ensures Reachable(m', b)
  {
    var k: nat :| Reaches(m, b, k);
    ReachesSameWalls(m, m', b, k);
  }

  /** Moving across a passage out of a reachable cell reaches its neighbour. */
  lemma PassageExtendsReach(m: Maze, p: Pos, s: Side)
    requires Valid(m) && Passage(m, p, s) && Reachable(m, p)
    ensures Reachable(m, Neighbour(p, s))
  {
    var j: nat :| Reaches(m, p, j);
    var n := Neighbour(p, s);
    OppositeInverts(s);
    assert Neighbour(n, Opposite(s)) == p;
    assert EnteredFrom(m, n, Opposite(s));
    assert Reaches(m, n, j + 1);
  }

  // ---- Completeness: a failed search exhausts every exit it met ----

  /** Entering `p` (giving `m1`) and then failing all moves (giving `m2`)
      leaves `p` and every marked cell with all exits marked. */
  lemma EnterExhausts(m: Maze, m1: Maze, r: Search, p: Pos)
    requires Valid(m) && InBounds(m, p)
    requires SameWalls(m1, r.maze) && Visited(m1) == Visited(m) + {p}
    requires MovesExhausted(m1, r, p, 0)
    ensures EnteredExhausted(m, r, p)
  {
    if !r.found {
      SameWallsSamePassages(m1, r.maze);
      forall s | Passage(r.maze, p, s)
        ensures Neighbour(p, s) in Visited(r.maze)
      {
        assert Passage(m1, p, s);
      }
    }
  }

  /** A skipped move is one that follows no passage to an unmarked cell. */
  lemma SkipExhausts(m: Maze, r: Search, p: Pos, k: nat)
    requires Valid(m) && InBounds(m, p) && k < 4 && Skipped(m, p, k)
    requires Valid(r.maze) && Visited(m) <= Visited(r.maze)
    requires MovesExhausted(m, r, p, k + 1)
    ensures MovesExhausted(m, r, p, k)
  {
    if !r.found {
      var s := OrderSide(k);
      MoveAllowedIsPassage(m, p, s);
      forall t | k <= SolveIndex(t) && Passage(m, p, t)
        ensures Neighbour(p, t) in Visited(r.maze)
      {
        if SolveIndex(t) == k {
          assert t == s;
        }
      }
    }
  }

  /** A move taken into `n` whose search failed, followed by the failed
      remaining moves, exhausts everything either of them marked. */
  lemma TakeExhausts(m: Maze, r1: Search, rest: Search, p: Pos, k: nat, n: Pos)
    requires Valid(m) && InBounds(m, p) && k < 4 && n == Neighbour(p, OrderSide(k))
    requires SameWalls(m, r1.maze) && SameWalls(r1.maze, rest.maze)
    requires Visited(m) <= Visited(r1.maze) <= Visited(rest.maze) && n in Visited(r1.maze)
    requires !r1.found && EnteredExhausted(m, r1, n)
    requires MovesExhausted(r1.maze, rest, p, k + 1)
    ensures MovesExhausted(m, rest, p, k)
  {
    if !rest.found {
      SameWallsSamePassages(m, r1.maze);
      forall b | b in Visited(rest.maze) - Visited(m)
        ensures ExitsVisited(rest.maze, b)
      {
        if b in Visited(r1.maze) {
          ExitsStayVisited(r1.maze, rest.maze, b);
        }
      }
      forall s | k <= SolveIndex(s) && Passage(m, p, s)
        ensures Neighbour(p, s) in Visited(rest.maze)
      {
        if SolveIndex(s) == k {
          assert s == OrderSide(k);
        } else {
          assert Passage(r1.maze, p, s);
        }
      }
    }
  }

  /** When a search from `p` fails, `p` and every cell it marked have all
      their exits marked. */
  lemma {:induction false} SolveFromExhausts(m: Maze, p: Pos)
    requires Valid(m) && InBounds(m, p)
    ensures EnteredExhausted(m, SolveFrom(m, p), p)
    decreases Unvisited(m) - {p}, 1, 0, 0
  {
    var m1 := MarkVisited(m, p);
    if p != Goal(m) {
      var r := TryMoves(m1, p, 0);
      assert SolveFrom(m, p).maze == r.maze && SolveFrom(m, p).found == r.found;
      TryMovesExhausts(m1, p, 0);
      EnterExhausts(m, m1, r, p);
    }
  }

  /** When the moves `SolveOrder[k..]` from `p` fail, every exit they met
      is marked. */
  lemma {:induction false} TryMovesExhausts(m: Maze, p: Pos, k: nat)
    requires Valid(m) && InBounds(m, p) && k <= 4
    ensures MovesExhausted(m, TryMoves(m, p, k), p, k)
    decreases Unvisited(m), 0, 4 - k, 1
  {
    if k < 4 {
      if Skipped(m, p, k) {
        SkippedMoveExhausts(m, p, k);
      } else {
        TakenMoveExhausts(m, p, k);
      }
    }
  }

  lemma {:induction false} SkippedMoveExhausts(m: Maze, p: Pos, k: nat)
    requires Valid(m) && InBounds(m, p) && k < 4 && Skipped(m, p, k)
    ensures MovesExhausted(m, TryMoves(m, p, k), p, k)
    decreases Unvisited(m), 0, 4 - k, 0
  {
    assert TryMoves(m, p, k) == TryMoves(m, p, k + 1);
    TryMovesExhausts(m, p, k + 1);
    SkipExhausts(m, TryMoves(m, p, k + 1), p, k);
  }

  lemma {:induction false} TakenMoveExhausts(m: Maze, p: Pos, k: nat)
    requires Valid(m) && InBounds(m, p) && k < 4 && !Skipped(m, p, k)
    ensures MovesExhausted(m, TryMoves(m, p, k), p, k)
    decreases Unvisited(m), 0, 4 - k, 0
  {
    var n := Step(p, SolveOrder[k]);
    assert n == Neighbour(p, OrderSide(k));
    var r1 := SolveFrom(m, n);
    if !r1.found {
      assert n in Unvisited(m);
      SolveFromExhausts(m, n);
      assert Unvisited(r1.maze) < Unvisited(m);
      TryMovesExhausts(r1.maze, p, k + 1);
      var rest := TryMoves(r1.maze, p, k + 1);
      assert TryMoves(m, p, k).maze == rest.maze && TryMoves(m, p, k).found == rest.found;
      TakeExhausts(m, r1, rest, p, k, n);
    }
  }

  // ---- Soundness: the search only follows passages ----

  /** A cell marked while entering `p` and trying the moves from it is
      reachable when `p` is and the cells the moves marked are. */
  lemma EnterReachesOne(m: Maze, m1: Maze, m2: Maze, p: Pos, b: Pos)
    requires Valid(m) && SameWalls(m, m1) && Valid(m2) && Visited(m1) == Visited(m) + {p}
    requires Reachable(m, p) && ReachedAll(m1, m2) && b in Visited(m2) - Visited(m)
    ensures Reachable(m, b)
  {
    if b != p {
      SameWallsSymmetric(m, m1);
      assert b in Visited(m2) - Visited(m1);
      assert Reachable(m1, b);
      ReachableSameWalls(m1, m, b);
    }
  }

  /** Entering `p` and then trying the moves reaches what the moves reach. */
  lemma EnterReaches(m: Maze, m1: Maze, m2: Maze, p: Pos)
    requires Valid(m) && SameWalls(m, m1) && SameWalls(m1, m2) && Visited(m1) == Visited(m) + {p}
    requires Reachable(m, p) && ReachedAll(m1, m2)
    ensures ReachedAll(m, m2)
  {
    forall b | b in Visited(m2) - Visited(m)
      ensures Reachable(m, b)
    {
      EnterReachesOne(m, m1, m2, p, b);
    }
  }

  /** A cell marked by a move's search or by the remaining moves is
      reachable. */
  lemma TakeReachesOne(m: Maze, m1: Maze, m2: Maze, b: Pos)
    requires Valid(m) && SameWalls(m, m1) && Valid(m2) && Visited(m) <= Visited(m1)
    requires ReachedAll(m, m1) && ReachedAll(m1, m2)
    requires b in Visited(m2) - Visited(m)
    ensures Reachable(m, b)
  {
    if b in Visited(m1) {
      assert Reachable(m, b);
    } else {
      SameWallsSymmetric(m, m1);
      assert Reachable(m1, b);
      ReachableSameWalls(m1, m, b);
    }
  }

  /** A move's search followed by the remaining moves reaches what either
      of them reaches. */
  lemma TakeReaches(m: Maze, m1: Maze, m2: Maze)
    requires Valid(m) && SameWalls(m, m1) && SameWalls(m1, m2) && Visited(m) <= Visited(m1)
    requires ReachedAll(m, m1) && ReachedAll(m1, m2)
    ensures ReachedAll(m, m2)
  {
    forall b | b in Visited(m2) - Visited(m)
      ensures Reachable(m, b)
    {
      TakeReachesOne(m, m1, m2, b);
    }
  }

  /** A search from a reachable cell marks only reachable cells. */
  lemma {:induction false} SolveFromReaches(m: Maze, p: Pos)
    requires Valid(m) && InBounds(m, p) && Reachable(m, p)
    ensures ReachedAll(m, SolveFrom(m, p).maze)
    decreases Unvisited(m) - {p}, 1, 0, 0
  {
    var m1 := MarkVisited(m, p);
    if p == Goal(m) {
      assert SolveFrom(m, p).maze == m1;
      EnterReaches(m, m1, m1, p);
    } else {
      var r := TryMoves(m1, p, 0);
      assert SolveFrom(m, p).maze == r.maze;
      ReachableSameWalls(m, m1, p);
      TryMovesReaches(m1, p, 0);
      EnterReaches(m, m1, r.maze, p);
    }
  }

  /** The moves `SolveOrder[k..]` from a reachable cell mark only reachable
      cells. */
  lemma {:induction false} TryMovesReaches(m: Maze, p: Pos, k: nat)
    requires Valid(m) && InBounds(m, p) && k <= 4 && Reachable(m, p)
    ensures ReachedAll(m, TryMoves(m, p, k).maze)
    decreases Unvisited(m), 0, 4 - k, 1
  {
    if k < 4 {
      if Skipped(m, p, k) {
        assert TryMoves(m, p, k).maze == TryMoves(m, p, k + 1).maze;
        TryMovesReaches(m, p, k + 1);
      } else {
        TakenMoveReaches(m, p, k);
      }
    }
  }

  lemma {:induction false} TakenMoveReaches(m: Maze, p: Pos, k: nat)
    requires Valid(m) && InBounds(m, p) && k < 4 && !Skipped(m, p, k) && Reachable(m, p)
    ensures ReachedAll(m, TryMoves(m, p, k).maze)
    decreases Unvisited(m), 0, 4 - k, 0
  {
    var s := OrderSide(k);
    var n := Step(p, SolveOrder[k]);
    assert n == Neighbour(p, s);
    MoveAllowedIsPassage(m, p, s);
    PassageExtendsReach(m, p, s);
    assert n in Unvisited(m);
    SolveFromReaches(m, n);
    var r1 := SolveFrom(m, n);
    if r1.found {
      assert TryMoves(m, p, k).maze == r1.maze;
    } else {
      assert Unvisited(r1.maze) < Unvisited(m);
      ReachableSameWalls(m, r1.maze, p);
      TryMovesReaches(r1.maze, p, k + 1);
      var rest := TryMoves(r1.maze, p, k + 1);
      assert TryMoves(m, p, k).maze == rest.maze;
      TakeReaches(m, r1.maze, rest.maze);
    }
  }

  // ---- The solver's guarantees ----

  /** The marked cells holding the first cell, with every exit of every
      marked cell marked, include every reachable cell. */
  lemma {:induction false} ClosedHoldsReached(m: Maze, b: Pos, k: nat)
    requires Valid(m) && Root in Visited(m)
    requires forall c | c in Visited(m) :: ExitsVisited(m, c)
    requires Reaches(m, b, k)
    ensures b in Visited(m)
    decreases k
  {
    if b != Root {
      var s :| EnteredFrom(m, b, s) && Reaches(m, Neighbour(b, s), k - 1);
      var q := Neighbour(b, s);
      ClosedHoldsReached(m, q, k - 1);
      OppositeInverts(s);
      assert Neighbour(q, Opposite(s)) == b;
      assert ExitsVisited(m, q);
    }
  }

  lemma {:induction false} SubsetSize<T>(a: set<T>, b: set<T>)
    requires a <= b
    ensures |a| <= |b|
    decreases |b|
  {
    if a != {} {
      var x :| x in a;
      SubsetSize(a - {x}, b - {x});
    }
  }

  /** A failed search from the first cell of an unmarked maze leaves the
      goal unreachable. */
  lemma FailureMeansUnreachable(m: Maze, r: Search, k: nat)
    requires Valid(m) && InBounds(m, Root) && Visited(m) == {}
    requires SameWalls(m, r.maze) && Root in Visited(r.maze)
    requires !r.found && EnteredExhausted(m, r, Root)
    requires Goal(m) !in Visited(r.maze)
    ensures !Reaches(m, Goal(m), k)
  {
    assert (Visited(r.maze) - Visited(m)) + {Root} == Visited(r.maze);
    if Reaches(m, Goal(m), k) {
      ReachesSameWalls(m, r.maze, Goal(m), k);
      ClosedHoldsReached(r.maze, Goal(m), k);
    }
  }

  /** A successful search whose marks are all reachable has reached the
      goal from the first cell. */
  lemma FoundMeansReachable(m: Maze, r: Search)
    requires Valid(m) && Valid(r.maze) && ReachedAll(m, r.maze)
    requires r.found && Goal(m) in (Visited(r.maze) - Visited(m)) + {Root}
    ensures Reachable(m, Goal(m))
  {
    if Goal(m) != Root {
      assert Goal(m) in Visited(r.maze) - Visited(m);
    } else {
      assert Reaches(m, Goal(m), 0);
    }
  }

  /** On an unmarked maze the solver succeeds exactly when the goal can be
      reached from the first cell along passages. */
  lemma SolveIsCorrect(m: Maze)
    requires Valid(m) && InBounds(m, Root) && Visited(m) == {}
    ensures Solve(m).found <==> Reachable(m, Goal(m))
  {
    var r := SolveFrom(m, Root);
    assert Solve(m) == r;
    assert Reaches(m, Root, 0);
    if r.found {
      SolveFromReaches(m, Root);
      FoundMeansReachable(m, r);
    } else {
      SolveFromExhausts(m, Root);
      forall k: nat
        ensures !Reaches(m, Goal(m), k)
      {
        FailureMeansUnreachable(m, r, k);
      }
      assert !Reachable(m, Goal(m));
    }
  }

  /** On an unmarked maze the solver enters each cell at most once, so it
      makes at most as many calls as the grid has cells. */
  lemma SolveCallsBounded(m: Maze)
    requires Valid(m) && InBounds(m, Root) && Visited(m) == {}
    ensures Solve(m).calls <= m.numCols * m.numRows
  {
    var r := Solve(m);
    SolveFromCounts(m, Root);
    assert r.calls == |Visited(r.maze) - Visited(m)|;
    assert Visited(r.maze) - Visited(m) <= AllCells(m);
    SubsetSize(Visited(r.maze) - Visited(m), AllCells(m));
    RectSize(m.numCols, m.numRows);
  }

  /** In a newly constructed maze the goal can be reached from the first
      cell. */
  lemma NewMazeGoalReachable(numRows: int, numCols: int, choose: Chooser)
    requires numRows > 0 && numCols > 0
    ensures NewMaze(numRows, numCols, choose).Ok?
    ensures var m := NewMaze(numRows, numCols, choose).value;
      Valid(m) && InBounds(m, Root) && Visited(m) == {} && Reachable(m, Goal(m))
  {
    NewMazeShape(numRows, numCols, choose);
    var m := NewMaze(numRows, numCols, choose).value;
    assert Goal(m) in AllCells(m);
    assert Reaches(m, Goal(m), |AllCells(m)|);
  }

  /** Solving a newly constructed maze succeeds, entering each cell at most
      once. */
  lemma NewMazeIsSolved(numRows: int, numCols: int, choose: Chooser)
    requires numRows > 0 && numCols > 0
    ensures NewMaze(numRows, numCols, choose).Ok?
    ensures var r := Solve(NewMaze(numRows, numCols, choose).value);
      r.found && r.calls <= numRows * numCols
  {
    NewMazeGoalReachable(numRows, numCols, choose);
    var m := NewMaze(numRows, numCols, choose).value;
    SolveIsCorrect(m);
    SolveCallsBounded(m);
  }

  /** A search from the first cell fails once the goal is marked, unless
      the goal is the first cell itself. */
  lemma MarkedGoalFails(m: Maze)
    requires Valid(m) && InBounds(m, Root) && Goal(m) in Visited(m)
    ensures !Solve(m).found <==> Goal(m) != Root
  {
  }

  /** `solve` leaves its marks behind: once a search has found the goal, a
      second search on the maze it returns fails unless the goal is the
      first cell. */
  lemma SolveTwiceFails(m: Maze)
    requires Valid(m) && InBounds(m, Root) && Solve(m).found
    ensures !Solve(Solve(m).maze).found <==> Goal(m) != Root
  {
    var r := Solve(m);
    assert Goal(r.maze) == Goal(m);
    assert Goal(m) in Visited(r.maze);
    MarkedGoalFails(r.maze);
  }

  /** Solving a newly constructed maze twice: the second call fails unless
      the grid has a single cell. */
  lemma SecondSolveFails(numRows: int, numCols: int, choose: Chooser)
    requires numRows > 0 && numCols > 0
    ensures NewMaze(numRows, numCols, choose).Ok?
    ensures var r := Solve(NewMaze(numRows, numCols, choose).value);
      !Solve(r.maze).found <==> numRows > 1 || numCols > 1
  {
    NewMazeIsSolved(numRows, numCols, choose);
    var m := NewMaze(numRows, numCols, choose).value;
    SolveTwiceFails(m);
  }
}
