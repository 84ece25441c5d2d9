/** Construction of a maze: allocating the grid, opening the entrance and the
    exit, and carving passages with the randomised recursive backtracker. */
module Generator {
  import opened Grid

  /** Neighbour offsets, in the order the carver lists its candidates. */
  const Neighbours: seq<(int, int)> := [(-1, 0), (1, 0), (0, -1), (0, 1)]

  /** Position of an offset in `Neighbours`; 4 for an offset not listed there. */
  function NeighbourIndex(d: (int, int)): (k: nat)
    ensures k <= 4
    ensures k < 4 ==> Neighbours[k] == d
    ensures k == 4 <==> d !in Neighbours
  {
    if d == (-1, 0) then 0
    else if d == (1, 0) then 1
    else if d == (0, -1) then 2
    else if d == (0, 1) then 3
    else 4
  }

  /** Every side's offset is one of the listed neighbours. */
  lemma SidesAreNeighbours()
    ensures forall s :: NeighbourIndex(Offset(s)) < 4
  {
    forall s
      ensures NeighbourIndex(Offset(s)) < 4
    {
      match s
      case Top =>
      case Bottom =>
      case Left =>
      case Right =>
    }
  }

  /** The random choice among candidate offsets. Given the maze as it stands,
      the current cell and the candidates, it names an index (read modulo the
      number of candidates). The maze changes between any two choices, so a
      chooser can reproduce any sequence of picks the random source makes. */
  type Chooser = (Maze, Pos, seq<(int, int)>) -> nat

  /** The neighbour at offset `d` is inside the grid and not yet visited. */
  predicate Unclaimed(m: Maze, p: Pos, d: (int, int))
    requires Valid(m)
  {
    InBounds(m, Step(p, d)) && !At(m, Step(p, d)).visited
  }

  /** The unclaimed neighbours among `Neighbours[k..]`, in listed order. */
  function CandidatesFrom(m: Maze, p: Pos, k: nat): (r: seq<(int, int)>)
    requires Valid(m) && k <= 4
    ensures forall d :: d in r <==> k <= NeighbourIndex(d) < 4 && Unclaimed(m, p, d)
    ensures forall a, b | 0 <= a < b < |r| :: NeighbourIndex(r[a]) < NeighbourIndex(r[b])
    decreases 4 - k
  {
    if k == 4 then []
    else
      var rest := CandidatesFrom(m, p, k + 1);
      if Unclaimed(m, p, Neighbours[k]) then
        OrderedCons(Neighbours[k], rest);
        [Neighbours[k]] + rest
      else rest
  }

  /** Putting an offset listed earlier than all of `rest` in front of it
      keeps the list in listed order. */
  lemma OrderedCons(x: (int, int), rest: seq<(int, int)>)
    requires forall d | d in rest :: NeighbourIndex(x) < NeighbourIndex(d)
    requires forall a, b | 0 <= a < b < |rest| :: NeighbourIndex(rest[a]) < NeighbourIndex(rest[b])
    ensures forall a, b | 0 <= a < b < |[x] + rest| :: NeighbourIndex(([x] + rest)[a]) < NeighbourIndex(([x] + rest)[b])
  {
    var r := [x] + rest;
    forall a, b | 0 <= a < b < |r|
      ensures NeighbourIndex(r[a]) < NeighbourIndex(r[b])
    {
      assert r[b] == rest[b - 1];
      if a > 0 {
        assert r[a] == rest[a - 1];
      } else {
        assert rest[b - 1] in rest;
      }
    }
  }

  /** The carver's candidate list at `p`: exactly the unclaimed neighbours,
      each once, in the order left, right, up, down. */
  function Candidates(m: Maze, p: Pos): (r: seq<(int, int)>)
    requires Valid(m)
    ensures forall d :: d in r <==> d in Neighbours && Unclaimed(m, p, d)
    ensures forall a, b | 0 <= a < b < |r| :: NeighbourIndex(r[a]) < NeighbourIndex(r[b])
  {
    CandidatesFrom(m, p, 0)
  }

  /** Every candidate is a unit step across some side, so the carver's chain
      of offset tests always knocks a wall down and never takes its error
      branch. */
  lemma CandidatesHaveSides(m: Maze, p: Pos)
    requires Valid(m)
    ensures forall d | d in Candidates(m, p) ::
      SideOf(d).Some? && Neighbour(p, SideOf(d).value) == Step(p, d) && InBounds(m, Step(p, d))
  {
  }

  /** Knocks down the outer top wall of the first cell and the outer bottom
      wall of the last one; an empty grid fails with an index error. */
  function BreakEntranceAndExit(m: Maze): (r: Result<Maze>)
    requires Valid(m)
    ensures r.Ok? <==> m.numCols > 0 && m.numRows > 0
    ensures r.Ok? ==> Valid(r.value) && r.value.numCols == m.numCols && r.value.numRows == m.numRows
    ensures r.Ok? ==> !At(r.value, Root).hasTopWall && !At(r.value, Goal(m)).hasBottomWall
    ensures r.Ok? ==> Visited(r.value) == Visited(m)
    ensures r.Ok? ==> forall p, s | InBounds(m, p) && (p, s) != (Root, Top) && (p, s) != (Goal(m), Bottom) ::
                        HasWall(At(r.value, p), s) == HasWall(At(m, p), s)
  {
    if |m.cells| == 0 || |m.cells[0]| == 0 then Err(IndexError)
    else
      var m1 := ClearWall(m, Root, Top);
      Ok(ClearWall(m1, Pos(|m1.cells| - 1, |m1.cells[0]| - 1), Bottom))
  }

  /** Every neighbour of `b` inside the grid carries the visited mark. */
  ghost predicate AllNeighboursVisited(m: Maze, b: Pos)
    requires Valid(m)
  {
    forall s :: InBounds(m, Neighbour(b, s)) ==> Neighbour(b, s) in Visited(m)
  }

  /** Once every neighbour of `b` is visited, later carving keeps it so. */
  lemma FinishedStaysFinished(m: Maze, m': Maze, b: Pos)
    requires Valid(m) && Valid(m') && m'.numCols == m.numCols && m'.numRows == m.numRows
    requires Visited(m) <= Visited(m')
    requires AllNeighboursVisited(m, b)
    ensures AllNeighboursVisited(m', b)
  {
  }

  /** Entering `p`: mark it visited, then carve from it until none of its
      neighbours is left unvisited. */
  function Carve(m: Maze, p: Pos, choose: Chooser): (r: Maze)
    requires Valid(m) && InBounds(m, p)
    ensures Valid(r) && r.numCols == m.numCols && r.numRows == m.numRows
    ensures WallsOnlyCleared(m, r)
    ensures Visited(m) + {p} <= Visited(r)
    ensures AllNeighboursVisited(r, p)
    ensures forall b | b in Visited(r) - Visited(m) :: AllNeighboursVisited(r, b)
    ensures ClearsOnlyInward(m, r)
    decreases Unvisited(m) - {p}, 1, 0
  {
    var m1 := MarkVisited(m, p);
    var r := CarveFrom(m1, p, choose);
    SameWallsThenCleared(m, m1, r);
    SameWallsThenInward(m, m1, r);
    r
  }

  /** The carving loop at `p`: pick an unvisited neighbour and carve towards
      it; stop when none is left. */
  function CarveFrom(m: Maze, p: Pos, choose: Chooser): (r: Maze)
    requires Valid(m) && InBounds(m, p)
    ensures Valid(r) && r.numCols == m.numCols && r.numRows == m.numRows
    ensures WallsOnlyCleared(m, r)
    ensures Visited(m) <= Visited(r)
    ensures AllNeighboursVisited(r, p)
    ensures forall b | b in Visited(r) - Visited(m) :: AllNeighboursVisited(r, b)
    ensures ClearsOnlyInward(m, r)
    decreases Unvisited(m), 0, 1
  {
    var candidates := Candidates(m, p);
    if |candidates| == 0 then
      SidesAreNeighbours();
      m
    else
      var d := candidates[choose(m, p, candidates) % |candidates|];
      match SideOf(d)
      case None =>
        assert false;
        m
      case Some(s) =>
        assert Neighbour(p, s) in Unvisited(m) by {
          assert d in candidates;
        }
        CarveToward(m, p, s, choose)
  }

  /** One round of the carving loop: open the wall of `p` on side `s`, carve
      from the unvisited neighbour there, then carry on with the loop at `p`. */
  function CarveToward(m: Maze, p: Pos, s: Side, choose: Chooser): (r: Maze)
    requires Valid(m) && InBounds(m, p) && Neighbour(p, s) in Unvisited(m)
    ensures Valid(r) && r.numCols == m.numCols && r.numRows == m.numRows
    ensures WallsOnlyCleared(m, r)
    ensures Visited(m) + {Neighbour(p, s)} <= Visited(r)
    ensures AllNeighboursVisited(r, p)
    ensures forall b | b in Visited(r) - Visited(m) :: AllNeighboursVisited(r, b)
    ensures ClearsOnlyInward(m, r)
    decreases Unvisited(m), 0, 0
  {
    var n := Neighbour(p, s);
    var m1 := ClearWall(m, p, s);
    var m2 := Carve(m1, n, choose);
    UnvisitedShrinks(m, m2, n);
    var r := CarveFrom(m2, p, choose);
    ClearWallInward(m, p, s);
    RoundFinishes(m, m1, m2, r);
    r
  }

  /** Carving a neighbour that was unvisited leaves fewer unvisited cells. */
  lemma UnvisitedShrinks(m: Maze, m2: Maze, n: Pos)
    requires Valid(m) && Valid(m2) && m2.numCols == m.numCols && m2.numRows == m.numRows
    requires n in Unvisited(m) && Visited(m) + {n} <= Visited(m2)
    ensures Unvisited(m2) < Unvisited(m)
  {
    assert n !in Unvisited(m2);
  }

  /** One round of the carving loop: knock a wall down (`m` to `m1`), carve
      the neighbour (`m1` to `m2`), then carry on with the loop (`m2` to `r`).
      Every cell marked on the way ends up with all its neighbours visited,
      and every wall knocked down faces a cell of the grid. */
  lemma RoundFinishes(m: Maze, m1: Maze, m2: Maze, r: Maze)
    requires WallsOnlyCleared(m, m1) && WallsOnlyCleared(m1, m2) && WallsOnlyCleared(m2, r)
    requires Visited(m1) == Visited(m) && Visited(m1) <= Visited(m2) && Visited(m2) <= Visited(r)
    requires forall b | b in Visited(m2) - Visited(m1) :: AllNeighboursVisited(m2, b)
    requires forall b | b in Visited(r) - Visited(m2) :: AllNeighboursVisited(r, b)
    requires ClearsOnlyInward(m, m1) && ClearsOnlyInward(m1, m2) && ClearsOnlyInward(m2, r)
    ensures WallsOnlyCleared(m, r) && Visited(m) <= Visited(r)
    ensures forall b | b in Visited(r) - Visited(m) :: AllNeighboursVisited(r, b)
    ensures ClearsOnlyInward(m, r)
  {
    WallsOnlyClearedTransitive(m, m1, m2);
    WallsOnlyClearedTransitive(m, m2, r);
    ClearsOnlyInwardTransitive(m, m1, m2);
    ClearsOnlyInwardTransitive(m, m2, r);
    forall b | b in Visited(r) - Visited(m)
      ensures AllNeighboursVisited(r, b)
    {
      if b !in Visited(r) - Visited(m2) {
        FinishedStaysFinished(m2, r, b);
      }
    }
  }

  /** Maze construction: allocate, open entrance and exit, carve from the
      first cell, then clear every visited mark. */
  function NewMaze(numRows: int, numCols: int, choose: Chooser): (r: Result<Maze>)
    ensures r.Ok? <==> numRows > 0 && numCols > 0
    ensures r.Ok? ==> Valid(r.value) && r.value.numRows == numRows && r.value.numCols == numCols
    ensures r.Ok? ==> Visited(r.value) == {}
    ensures r.Ok? ==> !At(r.value, Root).hasTopWall && !At(r.value, Goal(r.value)).hasBottomWall
  {
    var m0 := CreateCells(if numCols < 0 then 0 else numCols, if numRows < 0 then 0 else numRows);
    match BreakEntranceAndExit(m0)
    case Err(e) => Err(e)
    case Ok(m1) =>
      var m2 := Carve(m1, Root, choose);
      OpeningsSurvive(m1, m2);
      Ok(ResetVisited(m2))
  }

  /** Carving and clearing the marks never close the entrance or the exit. */
  lemma OpeningsSurvive(m1: Maze, m2: Maze)
    requires WallsOnlyCleared(m1, m2) && InBounds(m1, Root)
    requires !At(m1, Root).hasTopWall && !At(m1, Goal(m1)).hasBottomWall
    ensures !At(ResetVisited(m2), Root).hasTopWall
    ensures !At(ResetVisited(m2), Goal(m1)).hasBottomWall
  {
    assert !HasWall(At(m1, Root), Top) && !HasWall(At(m1, Goal(m1)), Bottom);
    assert !HasWall(At(m2, Root), Top) && !HasWall(At(m2, Goal(m1)), Bottom);
    assert SameWallsCell(At(m2, Root), At(ResetVisited(m2), Root));
    assert SameWallsCell(At(m2, Goal(m1)), At(ResetVisited(m2), Goal(m1)));
  }

  /** A wall on the outside of the grid, other than the entrance and the exit. */
  predicate OuterWall(m: Maze, q: Pos, t: Side)
  {
    && InBounds(m, q) && !InBounds(m, Neighbour(q, t))
    && (q, t) != (Root, Top) && (q, t) != (Goal(m), Bottom)
  }

  /** Construction leaves the outer frame closed except for the entrance and
      the exit: carving only knocks down walls between two cells of the grid. */
  lemma OuterWallsStand(numRows: int, numCols: int, choose: Chooser)
    requires numRows > 0 && numCols > 0
    ensures NewMaze(numRows, numCols, choose).Ok?
    ensures var m := NewMaze(numRows, numCols, choose).value;
      forall q, t | OuterWall(m, q, t) :: HasWall(At(m, q), t)
  {
    var m0 := CreateCells(numCols, numRows);
    var m1 := BreakEntranceAndExit(m0).value;
    var m2 := Carve(m1, Root, choose);
    var m := ResetVisited(m2);
    assert m == NewMaze(numRows, numCols, choose).value;
    forall q, t | OuterWall(m, q, t)
      ensures HasWall(At(m, q), t)
    {
      OuterWallStands(m0, m1, m2, q, t);
    }
  }

  /** One outer wall through construction: standing after allocation, kept by
      the openings, kept by carving, kept by the reset. */
  lemma OuterWallStands(m0: Maze, m1: Maze, m2: Maze, q: Pos, t: Side)
    requires Valid(m0) && InBounds(m0, q) && HasWall(At(m0, q), t)
    requires Valid(m1) && m1.numCols == m0.numCols && m1.numRows == m0.numRows
    requires (q, t) != (Root, Top) && (q, t) != (Goal(m0), Bottom)
    requires forall p, s | InBounds(m0, p) && (p, s) != (Root, Top) && (p, s) != (Goal(m0), Bottom) ::
               HasWall(At(m1, p), s) == HasWall(At(m0, p), s)
    requires WallsOnlyCleared(m1, m2) && ClearsOnlyInward(m1, m2)
    requires !InBounds(m0, Neighbour(q, t))
    ensures HasWall(At(ResetVisited(m2), q), t)
  {
    assert HasWall(At(m1, q), t);
    assert HasWall(At(m2, q), t);
    assert SameWallsCell(At(m2, q), At(ResetVisited(m2), q));
  }

  /** Cells whose every neighbour is visited, together with the first cell,
      force the whole grid to be visited. */
  lemma {:induction false} ClosedVisitedCoversGrid(m: Maze)
    requires Valid(m) && Root in Visited(m)
    requires forall b | b in Visited(m) :: AllNeighboursVisited(m, b)
    ensures Visited(m) == AllCells(m)
  {
    forall p | InBounds(m, p)
      ensures p in Visited(m)
    {
      ReachedBySweep(m, p);
    }
  }

  lemma {:induction false} ReachedBySweep(m: Maze, p: Pos)
    requires Valid(m) && Root in Visited(m)
    requires forall b | b in Visited(m) :: AllNeighboursVisited(m, b)
    requires InBounds(m, p)
    ensures p in Visited(m)
    decreases p.col + p.row
  {
    if p == Root {
    } else if p.col > 0 {
      var q := Pos(p.col - 1, p.row);
      ReachedBySweep(m, q);
      assert Neighbour(q, Right) == p;
    } else {
      var q := Pos(p.col, p.row - 1);
      ReachedBySweep(m, q);
      assert Neighbour(q, Bottom) == p;
    }
  }

  /** Carving from the first cell of an unvisited grid visits every cell. */
  lemma CarveVisitsEveryCell(m: Maze, choose: Chooser)
    requires Valid(m) && InBounds(m, Root) && Visited(m) == {}
    ensures Visited(Carve(m, Root, choose)) == AllCells(m)
  {
    ClosedVisitedCoversGrid(Carve(m, Root, choose));
  }
}
