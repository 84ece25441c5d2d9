/** The shape of the passages the carver leaves behind. Walls are stored per
    cell and a carving step opens only the wall of the cell it leaves, so the
    open passages form a directed graph; this module shows it is a tree whose
    edges point away from the first cell and which spans the grid. */
module Tree {
  import opened Grid
  import opened Generator

  /** The neighbour across side `s` of `b` has a passage into `b`. */
  predicate EnteredFrom(m: Maze, b: Pos, s: Side)
    requires Valid(m)
  {
    Passage(m, Neighbour(b, s), Opposite(s))
  }

  /** The number of neighbours with a passage into `b`. */
  function InDegree(m: Maze, b: Pos): nat
    requires Valid(m)
  {
    (if EnteredFrom(m, b, Top) then 1 else 0)
    + (if EnteredFrom(m, b, Bottom) then 1 else 0)
    + (if EnteredFrom(m, b, Left) then 1 else 0)
    + (if EnteredFrom(m, b, Right) then 1 else 0)
  }

  /** Every open passage between two cells of the grid, as (cell, side). */
  ghost function Passages(m: Maze): (r: set<(Pos, Side)>)
    requires Valid(m)
    ensures forall a :: a in r <==> Passage(m, a.0, a.1)
  {
    set p, s | p in AllCells(m) && s in AllSides && Passage(m, p, s) :: (p, s)
  }

  /** `b` can be reached from the first cell along at most `k` passages. */
  ghost predicate Reaches(m: Maze, b: Pos, k: nat)
    requires Valid(m)
    decreases k
  {
    || b == Root
    || (k > 0 && exists s :: EnteredFrom(m, b, s) && Reaches(m, Neighbour(b, s), k - 1))
  }

  /** Claimed cells other than the first have exactly one passage into
      them; every other cell has none. */
  ghost predicate DegreesFit(m: Maze, claimed: set<Pos>)
    requires Valid(m)
  {
    forall b {:trigger InDegree(m, b)} | InBounds(m, b) :: InDegree(m, b) == if b in claimed && b != Root then 1 else 0
  }

  ghost predicate AllReached(m: Maze, claimed: set<Pos>)
    requires Valid(m)
  {
    forall b {:trigger Reaches(m, b, |claimed|)} | b in claimed :: Reaches(m, b, |claimed|)
  }

  /** The invariant of carving. `claimed` holds the visited cells plus the
      cell about to be entered. The in-degrees fit, there are as many passages
      as claimed cells besides the first, and every claimed cell can be
      reached from the first one. */
  ghost predicate TreeShape(m: Maze, claimed: set<Pos>)
  {
    && Valid(m) && Root in claimed && claimed <= AllCells(m)
    && DegreesFit(m, claimed)
    && |Passages(m)| == |claimed - {Root}|
    && AllReached(m, claimed)
  }

  lemma SameWallsSamePassages(m: Maze, m': Maze)
    requires SameWalls(m, m')
    ensures forall p, s :: Passage(m', p, s) == Passage(m, p, s)
    ensures Passages(m') == Passages(m)
  {
    forall p, s
      ensures Passage(m', p, s) == Passage(m, p, s)
    {
      if InBounds(m, p) {
        assert SameWallsCell(At(m, p), At(m', p));
      }
    }
  }

  lemma SameWallsSameDegree(m: Maze, m': Maze, b: Pos)
    requires SameWalls(m, m')
    ensures InDegree(m', b) == InDegree(m, b)
  {
    SameWallsSamePassages(m, m');
    assert forall s :: EnteredFrom(m', b, s) == EnteredFrom(m, b, s);
  }

  lemma SameWallsDegreesFit(m: Maze, m': Maze, claimed: set<Pos>)
    requires SameWalls(m, m') && DegreesFit(m, claimed)
    ensures DegreesFit(m', claimed)
  {
    forall b | InBounds(m', b)
      ensures InDegree(m', b) == if b in claimed && b != Root then 1 else 0
    {
      SameWallsSameDegree(m, m', b);
    }
  }

  lemma {:induction false} ReachesSameWalls(m: Maze, m': Maze, b: Pos, k: nat)
    requires SameWalls(m, m') && Reaches(m, b, k)
    ensures Reaches(m', b, k)
    decreases k
  {
    if b != Root {
      var s :| EnteredFrom(m, b, s) && Reaches(m, Neighbour(b, s), k - 1);
      ReachesSameWalls(m, m', Neighbour(b, s), k - 1);
      SameWallsSamePassages(m, m');
      assert EnteredFrom(m', b, s);
    }
  }

  lemma SameWallsAllReached(m: Maze, m': Maze, claimed: set<Pos>)
    requires SameWalls(m, m') && AllReached(m, claimed)
    ensures AllReached(m', claimed)
  {
    forall b | b in claimed
      ensures Reaches(m', b, |claimed|)
    {
      ReachesSameWalls(m, m', b, |claimed|);
    }
  }

  /** The shape of the passages depends on the walls alone, not on the marks. */
  lemma SameWallsSameShape(m: Maze, m': Maze, claimed: set<Pos>)
    requires SameWalls(m, m') && TreeShape(m, claimed)
    ensures TreeShape(m', claimed)
  {
    SameWallsSamePassages(m, m');
    SameWallsDegreesFit(m, m', claimed);
    SameWallsAllReached(m, m', claimed);
  }

  /** A cell entered from a neighbour reachable within `k - 1` passages is
      reachable within `k`. */
  lemma ReachesStep(m: Maze, b: Pos, s: Side, k: nat)
    requires Valid(m) && k > 0 && EnteredFrom(m, b, s) && Reaches(m, Neighbour(b, s), k - 1)
    ensures Reaches(m, b, k)
  {
  }

  /** Knocking down walls keeps every passage open. */
  lemma EnteredFromCleared(m: Maze, m': Maze, b: Pos, s: Side)
    requires WallsOnlyCleared(m, m') && EnteredFrom(m, b, s)
    ensures EnteredFrom(m', b, s)
  {
  }

  /** Knocking down walls keeps a cell reachable. */
  lemma {:induction false} ReachesCleared(m: Maze, m': Maze, b: Pos, k: nat)
    requires WallsOnlyCleared(m, m') && Reaches(m, b, k)
    ensures Reaches(m', b, k)
    decreases k
  {
    if b != Root {
      var s :| EnteredFrom(m, b, s) && Reaches(m, Neighbour(b, s), k - 1);
      ReachesCleared(m, m', Neighbour(b, s), k - 1);
      EnteredFromCleared(m, m', b, s);
      ReachesStep(m', b, s, k);
    }
  }

  /** A cell reachable within `k` passages is reachable within `k + 1`. */
  lemma {:induction false} ReachesOneMore(m: Maze, b: Pos, k: nat)
    requires Valid(m) && Reaches(m, b, k)
    ensures Reaches(m, b, k + 1)
    decreases k
  {
    if b != Root {
      var s :| EnteredFrom(m, b, s) && Reaches(m, Neighbour(b, s), k - 1);
      ReachesOneMore(m, Neighbour(b, s), k - 1);
      ReachesStep(m, b, s, k + 1);
    }
  }

  /** After opening the wall of `p` on side `s`, the passages are the old ones
      plus the one from `p` across `s` (when that neighbour exists). */
  lemma PassagesAfterClear(m: Maze, p: Pos, s: Side)
    requires Valid(m) && InBounds(m, p) && InBounds(m, Neighbour(p, s))
    ensures forall q, t :: Passage(ClearWall(m, p, s), q, t) == (Passage(m, q, t) || (q, t) == (p, s))
    ensures Passages(ClearWall(m, p, s)) == Passages(m) + {(p, s)}
  {
    var m1 := ClearWall(m, p, s);
    forall q, t
      ensures Passage(m1, q, t) == (Passage(m, q, t) || (q, t) == (p, s))
    {
    }
  }

  /** After a carving step from `p` across `s`, the only new passage into
      any cell is the one into the entered neighbour. */
  lemma StepEnteredFrom(m: Maze, p: Pos, s: Side, b: Pos, t: Side)
    requires Valid(m) && InBounds(m, p) && InBounds(m, Neighbour(p, s))
    ensures EnteredFrom(ClearWall(m, p, s), b, t)
         == (EnteredFrom(m, b, t) || (b == Neighbour(p, s) && t == Opposite(s)))
  {
    PassagesAfterClear(m, p, s);
    OppositeInverts(s);
    OppositeInverts(t);
    if b == Neighbour(p, s) && t == Opposite(s) {
      assert Neighbour(b, t) == p;
    }
    if Neighbour(b, t) == p && Opposite(t) == s {
      assert t == Opposite(s);
      assert b == Neighbour(p, s);
    }
  }

  /** A carving step from `p` across `s` adds one to the in-degree of the
      entered neighbour, when no passage led into it from `p` before, and
      leaves every other in-degree as it was. */
  lemma StepInDegree(m: Maze, p: Pos, s: Side, b: Pos)
    requires Valid(m) && InBounds(m, p) && InBounds(m, Neighbour(p, s))
    requires !EnteredFrom(m, Neighbour(p, s), Opposite(s))
    ensures InDegree(ClearWall(m, p, s), b) == InDegree(m, b) + if b == Neighbour(p, s) then 1 else 0
  {
    StepEnteredFrom(m, p, s, b, Top);
    StepEnteredFrom(m, p, s, b, Bottom);
    StepEnteredFrom(m, p, s, b, Left);
    StepEnteredFrom(m, p, s, b, Right);
  }

  /** The in-degree of one cell after a carving step that claims the
      neighbour. */
  lemma StepDegreeOne(m: Maze, p: Pos, s: Side, v: set<Pos>, b: Pos)
    requires Valid(m) && InBounds(m, p) && DegreesFit(m, v) && Root in v
    requires InBounds(m, Neighbour(p, s)) && Neighbour(p, s) !in v
    requires !EnteredFrom(m, Neighbour(p, s), Opposite(s))
    requires InBounds(m, b)
    ensures InDegree(ClearWall(m, p, s), b) == if b in v + {Neighbour(p, s)} && b != Root then 1 else 0
  {
    assert InDegree(m, b) == if b in v && b != Root then 1 else 0;
    StepInDegree(m, p, s, b);
  }

  /** The in-degrees after a carving step: only the entered neighbour gains
      a passage into it. */
  lemma StepDegreesFit(m: Maze, p: Pos, s: Side, v: set<Pos>)
    requires Valid(m) && InBounds(m, p) && DegreesFit(m, v) && Root in v
    requires InBounds(m, Neighbour(p, s)) && Neighbour(p, s) !in v
    ensures !Passage(m, p, s)
    ensures DegreesFit(ClearWall(m, p, s), v + {Neighbour(p, s)})
  {
    var n := Neighbour(p, s);
    OppositeInverts(s);
    assert Neighbour(n, Opposite(s)) == p;
    // The neighbour had no passage into it, so the wall of `p` facing it stood.
    assert InDegree(m, n) == 0;
    assert !EnteredFrom(m, n, Opposite(s));
    forall b | InBounds(ClearWall(m, p, s), b)
      ensures InDegree(ClearWall(m, p, s), b) == if b in v + {n} && b != Root then 1 else 0
    {
      StepDegreeOne(m, p, s, v, b);
    }
  }

  /** The wall a carving step knocks down opens a passage into the
      neighbour, coming from `p`. */
  lemma ClearedWallEnters(m: Maze, p: Pos, s: Side)
    requires Valid(m) && InBounds(m, p) && InBounds(m, Neighbour(p, s))
    ensures Neighbour(Neighbour(p, s), Opposite(s)) == p
    ensures EnteredFrom(ClearWall(m, p, s), Neighbour(p, s), Opposite(s))
  {
    OppositeInverts(s);
  }

  /** A claimed cell stays reachable, one passage later, once walls are
      knocked down. */
  lemma ClaimedStaysReached(m: Maze, m1: Maze, b: Pos, v: set<Pos>)
    requires Valid(m) && Valid(m1) && WallsOnlyCleared(m, m1) && AllReached(m, v) && b in v
    ensures Reaches(m1, b, |v| + 1)
  {
    assert Reaches(m, b, |v|);
    ReachesCleared(m, m1, b, |v|);
    ReachesOneMore(m1, b, |v|);
  }

  /** The neighbour a carving step enters is one passage further from the
      first cell than the cell `p` it was entered from. */
  lemma EnteredIsReached(m: Maze, m1: Maze, p: Pos, n: Pos, t: Side, k: nat)
    requires Valid(m) && Valid(m1) && WallsOnlyCleared(m, m1) && Reaches(m, p, k)
    requires Neighbour(n, t) == p && EnteredFrom(m1, n, t)
    ensures Reaches(m1, n, k + 1)
  {
    ReachesCleared(m, m1, p, k);
    ReachesStep(m1, n, t, k + 1);
  }

  /** Reachability of one cell after a carving step that opened a passage
      from `p` into its neighbour `n` across side `t` of `n` (giving `m1`). */
  lemma StepReachesOne(m: Maze, m1: Maze, p: Pos, n: Pos, t: Side, v: set<Pos>, b: Pos)
    requires Valid(m) && Valid(m1) && WallsOnlyCleared(m, m1)
    requires AllReached(m, v) && p in v && n !in v
    requires Neighbour(n, t) == p && EnteredFrom(m1, n, t)
    requires b in v + {n}
    ensures Reaches(m1, b, |v| + 1)
  {
    if b in v {
      ClaimedStaysReached(m, m1, b, v);
    } else {
      assert Reaches(m, p, |v|);
      EnteredIsReached(m, m1, p, n, t, |v|);
    }
  }

  /** Reachability after a carving step, for every claimed cell. */
  lemma StepAllReached(m: Maze, m1: Maze, p: Pos, n: Pos, t: Side, v: set<Pos>)
    requires Valid(m) && Valid(m1) && WallsOnlyCleared(m, m1)
    requires AllReached(m, v) && p in v && n !in v
    requires Neighbour(n, t) == p && EnteredFrom(m1, n, t)
    ensures AllReached(m1, v + {n})
  {
    assert |v + {n}| == |v| + 1;
    forall b | b in v + {n}
      ensures Reaches(m1, b, |v + {n}|)
    {
      StepReachesOne(m, m1, p, n, t, v, b);
    }
  }

  /** One carving step keeps the tree shape: opening the wall of a visited
      cell towards an unvisited neighbour adds exactly one passage, the only
      one into that neighbour, which then becomes claimed. */
  lemma CarveStepKeepsShape(m: Maze, p: Pos, s: Side)
    requires Valid(m) && TreeShape(m, Visited(m)) && p in Visited(m)
    requires InBounds(m, Neighbour(p, s)) && Neighbour(p, s) !in Visited(m)
    ensures Visited(ClearWall(m, p, s)) == Visited(m)
    ensures TreeShape(ClearWall(m, p, s), Visited(m) + {Neighbour(p, s)})
  {
    var v := Visited(m);
    var n := Neighbour(p, s);
    var m1 := ClearWall(m, p, s);
    StepDegreesFit(m, p, s, v);
    ClearedWallEnters(m, p, s);
    StepAllReached(m, m1, p, n, Opposite(s), v);
    PassageCount(m, p, s, v);
    ClaimInside(m, m1, v, n);
  }

  /** Claiming one more cell of the grid keeps the claimed cells inside it. */
  lemma ClaimInside(m: Maze, m1: Maze, v: set<Pos>, n: Pos)
    requires v <= AllCells(m) && InBounds(m, n)
    requires m1.numCols == m.numCols && m1.numRows == m.numRows
    ensures v + {n} <= AllCells(m1)
  {
  }

  /** A carving step adds one passage and claims one cell. */
  lemma PassageCount(m: Maze, p: Pos, s: Side, v: set<Pos>)
    requires Valid(m) && InBounds(m, p) && InBounds(m, Neighbour(p, s))
    requires !Passage(m, p, s) && Root in v && Neighbour(p, s) !in v
    requires |Passages(m)| == |v - {Root}|
    ensures |Passages(ClearWall(m, p, s))| == |(v + {Neighbour(p, s)}) - {Root}|
  {
    PassagesAfterClear(m, p, s);
    AddOneEach(Passages(m), (p, s), v, Neighbour(p, s), Root);
  }

  lemma AddOneEach<T, U>(a: set<T>, x: T, b: set<U>, y: U, root: U)
    requires x !in a && y !in b && root in b && |a| == |b - {root}|
    ensures |a + {x}| == |(b + {y}) - {root}|
  {
    assert (b + {y}) - {root} == (b - {root}) + {y};
  }

  /** Marking the claimed cell visited keeps the tree shape. */
  lemma MarkKeepsShape(m: Maze, p: Pos)
    requires Valid(m) && InBounds(m, p) && TreeShape(m, Visited(m) + {p})
    ensures TreeShape(MarkVisited(m, p), Visited(MarkVisited(m, p)))
  {
    SameWallsSameShape(m, MarkVisited(m, p), Visited(m) + {p});
  }

  /** Entering an unvisited cell that the tree already claims keeps the tree
      shape through the whole recursive carve. */
  lemma {:induction false} CarveKeepsShape(m: Maze, p: Pos, choose: Chooser)
    requires Valid(m) && InBounds(m, p) && p !in Visited(m)
    requires TreeShape(m, Visited(m) + {p})
    ensures TreeShape(Carve(m, p, choose), Visited(Carve(m, p, choose)))
    decreases Unvisited(m) - {p}, 1, 0
  {
    MarkKeepsShape(m, p);
    CarveFromKeepsShape(MarkVisited(m, p), p, choose);
  }

  /** When `p` has a candidate, one round of the carving loop opens the
      wall towards the chosen unvisited neighbour, carves from there and
      carries on at `p`. */
  lemma CarveFromUnfolds(m: Maze, p: Pos, choose: Chooser) returns (s: Side)
    requires Valid(m) && InBounds(m, p) && |Candidates(m, p)| > 0
    ensures InBounds(m, Neighbour(p, s)) && Neighbour(p, s) !in Visited(m)
    ensures CarveFrom(m, p, choose)
         == CarveFrom(Carve(ClearWall(m, p, s), Neighbour(p, s), choose), p, choose)
  {
    var candidates := Candidates(m, p);
    var d := candidates[choose(m, p, candidates) % |candidates|];
    assert d in candidates;
    s := SideOf(d).value;
  }

  lemma {:induction false} CarveFromKeepsShape(m: Maze, p: Pos, choose: Chooser)
    requires Valid(m) && InBounds(m, p) && p in Visited(m)
    requires TreeShape(m, Visited(m))
    ensures TreeShape(CarveFrom(m, p, choose), Visited(CarveFrom(m, p, choose)))
    decreases Unvisited(m), 0, 1
  {
    if |Candidates(m, p)| > 0 {
      var s := CarveFromUnfolds(m, p, choose);
      CarveRoundKeepsShape(m, p, s, choose);
    }
  }

  /** One round of the carving loop keeps the tree shape, and so do the
      rounds after it. */
  lemma {:induction false} CarveRoundKeepsShape(m: Maze, p: Pos, s: Side, choose: Chooser)
    requires Valid(m) && InBounds(m, p) && p in Visited(m)
    requires TreeShape(m, Visited(m))
    requires InBounds(m, Neighbour(p, s)) && Neighbour(p, s) !in Visited(m)
    ensures var r := CarveFrom(Carve(ClearWall(m, p, s), Neighbour(p, s), choose), p, choose);
      TreeShape(r, Visited(r))
    decreases Unvisited(m), 0, 0
  {
    var n := Neighbour(p, s);
    var m1 := ClearWall(m, p, s);
    CarveStepKeepsShape(m, p, s);
    assert n in Unvisited(m);
    CarveKeepsShape(m1, n, choose);
    var m2 := Carve(m1, n, choose);
    assert Unvisited(m2) < Unvisited(m);
    CarveFromKeepsShape(m2, p, choose);
  }

  /** The grid after the entrance and exit are opened has no passage yet:
      those two openings face out of the grid. */
  lemma OpeningsAreNoPassages(numCols: nat, numRows: nat)
    requires numCols > 0 && numRows > 0
    ensures BreakEntranceAndExit(CreateCells(numCols, numRows)).Ok?
    ensures Passages(BreakEntranceAndExit(CreateCells(numCols, numRows)).value) == {}
  {
    var m0 := CreateCells(numCols, numRows);
    var m1 := BreakEntranceAndExit(m0).value;
    forall p, s | InBounds(m1, p) && InBounds(m1, Neighbour(p, s))
      ensures HasWall(At(m1, p), s)
    {
      assert (p, s) != (Root, Top) && (p, s) != (Goal(m0), Bottom);
      assert HasWall(At(m0, p), s);
    }
    assert forall a :: a !in Passages(m1);
  }

  /** Without passages no cell has a passage into it. */
  lemma NoPassagesNoDegree(m: Maze, b: Pos)
    requires Valid(m) && Passages(m) == {}
    ensures InDegree(m, b) == 0
  {
    forall t
      ensures !EnteredFrom(m, b, t)
    {
      assert (Neighbour(b, t), Opposite(t)) !in Passages(m);
    }
  }

  lemma NoPassagesNoDegrees(m: Maze)
    requires Valid(m) && Passages(m) == {}
    ensures forall b | InBounds(m, b) :: InDegree(m, b) == 0
  {
    forall b | InBounds(m, b)
      ensures InDegree(m, b) == 0
    {
      NoPassagesNoDegree(m, b);
    }
  }

  /** With no passage into any cell, the in-degrees fit the tree of the
      first cell alone. */
  lemma NoDegreesFitRoot(m: Maze)
    requires Valid(m) && forall b | InBounds(m, b) :: InDegree(m, b) == 0
    ensures DegreesFit(m, {Root})
  {
  }

  lemma NoPassagesFitRoot(m: Maze)
    requires Valid(m) && Passages(m) == {}
    ensures DegreesFit(m, {Root})
  {
    NoPassagesNoDegrees(m);
    NoDegreesFitRoot(m);
  }

  /** The first cell is reachable in any grid. */
  lemma RootReached(m: Maze)
    requires Valid(m)
    ensures AllReached(m, {Root})
  {
    assert |{Root}| == 1;
    assert Reaches(m, Root, 1);
  }

  lemma RootTreeFromParts(m: Maze)
    requires Valid(m) && InBounds(m, Root) && Passages(m) == {}
    requires DegreesFit(m, {Root}) && AllReached(m, {Root})
    ensures TreeShape(m, {Root})
  {
    assert {Root} - {Root} == {};
  }

  /** A grid without passages is the tree of the first cell alone. */
  lemma NoPassagesRootTree(m: Maze)
    requires Valid(m) && InBounds(m, Root) && Passages(m) == {}
    ensures TreeShape(m, {Root})
  {
    NoPassagesFitRoot(m);
    RootReached(m);
    RootTreeFromParts(m);
  }

  /** Before carving, the tree consists of the first cell alone. */
  lemma InitialShape(numCols: nat, numRows: nat)
    requires numCols > 0 && numRows > 0
    ensures BreakEntranceAndExit(CreateCells(numCols, numRows)).Ok?
    ensures var m := BreakEntranceAndExit(CreateCells(numCols, numRows)).value;
      Visited(m) == {} && TreeShape(m, {Root})
  {
    var m := BreakEntranceAndExit(CreateCells(numCols, numRows)).value;
    OpeningsAreNoPassages(numCols, numRows);
    NoPassagesRootTree(m);
  }

  /** Carving from the first cell of an unvisited grid holding only the
      first cell's tree, then clearing the marks, leaves a tree that claims
      every cell. */
  lemma CarvedTreeSpansGrid(m: Maze, choose: Chooser)
    requires Valid(m) && InBounds(m, Root) && Visited(m) == {} && TreeShape(m, {Root})
    ensures TreeShape(ResetVisited(Carve(m, Root, choose)), AllCells(m))
  {
    CarveKeepsShape(m, Root, choose);
    var m2 := Carve(m, Root, choose);
    CarveVisitsEveryCell(m, choose);
    SameWallsSameShape(m2, ResetVisited(m2), AllCells(m));
  }

  /** What a tree claiming every cell says about the passages. */
  lemma SpanningTreeFacts(m: Maze, rows: int, cols: int)
    requires Valid(m) && m.numRows == rows && m.numCols == cols && rows >= 0 && cols >= 0
    requires TreeShape(m, AllCells(m))
    ensures forall b | InBounds(m, b) :: InDegree(m, b) == if b == Root then 0 else 1
    ensures |Passages(m)| == rows * cols - 1
  {
    var all := AllCells(m);
    RectSize(cols, rows);
    assert |all - {Root}| == |all| - 1;
    forall b | InBounds(m, b)
      ensures InDegree(m, b) == if b == Root then 0 else 1
    {
      assert b in all;
    }
  }

  /** In a tree claiming every cell, each cell is within rows * cols moves of
      the first one. */
  lemma SpanningTreeReached(m: Maze, rows: nat, cols: nat)
    requires Valid(m) && m.numRows == rows && m.numCols == cols
    requires TreeShape(m, AllCells(m))
    ensures forall b | InBounds(m, b) :: Reaches(m, b, CellCount(cols, rows))
  {
    var all := AllCells(m);
    RectSize(cols, rows);
    assert |all| == CellCount(cols, rows);
    forall b | InBounds(m, b)
      ensures Reaches(m, b, |all|)
    {
      assert b in all;
    }
  }

  /** A newly constructed maze has the shape of a tree claiming every cell. */
  lemma NewMazeShape(numRows: int, numCols: int, choose: Chooser)
    requires numRows > 0 && numCols > 0
    ensures NewMaze(numRows, numCols, choose).Ok?
    ensures var m := NewMaze(numRows, numCols, choose).value;
      m.numRows == numRows && m.numCols == numCols && TreeShape(m, AllCells(m))
  {
    var m1 := BreakEntranceAndExit(CreateCells(numCols, numRows)).value;
    InitialShape(numCols, numRows);
    CarvedTreeSpansGrid(m1, choose);
    var m := ResetVisited(Carve(m1, Root, choose));
    assert m == NewMaze(numRows, numCols, choose).value;
  }

  /** The passages of a newly constructed maze form a spanning tree directed
      away from the first cell: no passage leads into the first cell, exactly
      one leads into every other cell, and there are rows * cols - 1 of them. */
  lemma GeneratedMazeIsTree(numRows: int, numCols: int, choose: Chooser)
    requires numRows > 0 && numCols > 0
    ensures NewMaze(numRows, numCols, choose).Ok?
    ensures var m := NewMaze(numRows, numCols, choose).value;
      && (forall b | InBounds(m, b) :: InDegree(m, b) == if b == Root then 0 else 1)
      && |Passages(m)| == numRows * numCols - 1
  {
    NewMazeShape(numRows, numCols, choose);
    SpanningTreeFacts(NewMaze(numRows, numCols, choose).value, numRows, numCols);
  }

  /** Every cell of a newly constructed maze can be reached from the first
      cell in at most rows * cols moves. */
  lemma GeneratedMazeConnected(numRows: int, numCols: int, choose: Chooser)
    requires numRows > 0 && numCols > 0
    ensures NewMaze(numRows, numCols, choose).Ok?
    ensures var m := NewMaze(numRows, numCols, choose).value;
      forall b | InBounds(m, b) :: Reaches(m, b, CellCount(numCols, numRows))
  {
    NewMazeShape(numRows, numCols, choose);
    SpanningTreeReached(NewMaze(numRows, numCols, choose).value, numRows, numCols);
  }
}
