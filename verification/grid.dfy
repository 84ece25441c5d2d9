/** The maze's data: cells with four wall flags and a visited mark, laid out
    column by column, and the whole-grid operations the maze engine performs
    on them (allocation and clearing the visited marks). */
module Grid {

  datatype Option<T> = None | Some(value: T)

  /** The only failure construction can raise: indexing an empty grid. */
  datatype MazeError = IndexError

  datatype Result<T> = Ok(value: T) | Err(error: MazeError)

  /** One square of the maze. Each flag is true while that wall stands;
      `visited` is the mark both the carver and the solver leave behind. */
  datatype Cell = Cell(hasTopWall: bool, hasBottomWall: bool, hasLeftWall: bool,
                       hasRightWall: bool, visited: bool)

  datatype Side = Top | Bottom | Left | Right

  const AllSides: set<Side> := {Top, Bottom, Left, Right}

  /** (column, row) offset of the neighbour across a side; rows grow downwards. */
  function Offset(s: Side): (int, int)
  {
    match s
    case Top => (0, -1)
    case Bottom => (0, 1)
    case Left => (-1, 0)
    case Right => (1, 0)
  }

  /** The side a unit offset crosses; None for anything that is not one of the
      four unit steps. */
  function SideOf(d: (int, int)): (r: Option<Side>)
    ensures r.Some? ==> Offset(r.value) == d
    ensures forall s :: Offset(s) == d ==> r == Some(s)
  {
    if d == (-1, 0) then Some(Left)
    else if d == (1, 0) then Some(Right)
    else if d == (0, -1) then Some(Top)
    else if d == (0, 1) then Some(Bottom)
    else None
  }

  function Opposite(s: Side): (r: Side)
    ensures Offset(r) == (-Offset(s).0, -Offset(s).1)
  {
    match s
    case Top => Bottom
    case Bottom => Top
    case Left => Right
    case Right => Left
  }

  /** Crossing a side and then its opposite leads back to the same cell. */
  lemma OppositeInverts(s: Side)
    ensures Opposite(Opposite(s)) == s
    ensures forall p :: Step(Step(p, Offset(s)), Offset(Opposite(s))) == p
  {
  }

  function HasWall(c: Cell, s: Side): bool
  {
    match s
    case Top => c.hasTopWall
    case Bottom => c.hasBottomWall
    case Left => c.hasLeftWall
    case Right => c.hasRightWall
  }

  /** The cell with the wall on side `s` knocked down and nothing else changed. */
  function WithoutWall(c: Cell, s: Side): (r: Cell)
    ensures !HasWall(r, s)
    ensures forall t :: t != s ==> HasWall(r, t) == HasWall(c, t)
    ensures r.visited == c.visited
  {
    match s
    case Top => c.(hasTopWall := false)
    case Bottom => c.(hasBottomWall := false)
    case Left => c.(hasLeftWall := false)
    case Right => c.(hasRightWall := false)
  }

  /** A newly allocated cell: walled in on all four sides, not yet visited. */
  function FreshCell(): (c: Cell)
    ensures forall s :: HasWall(c, s)
    ensures !c.visited
  {
    Cell(true, true, true, true, false)
  }

  /** Two cells that agree on every wall flag (their visited marks may differ). */
  predicate SameWallsCell(c: Cell, c': Cell)
  {
    && c.hasTopWall == c'.hasTopWall
    && c.hasBottomWall == c'.hasBottomWall
    && c.hasLeftWall == c'.hasLeftWall
    && c.hasRightWall == c'.hasRightWall
  }

  /** A cell position: column `col`, row `row`. */
  datatype Pos = Pos(col: int, row: int)

  /** The entrance cell, where both searches start. */
  const Root := Pos(0, 0)

  function Step(p: Pos, d: (int, int)): Pos
  {
    Pos(p.col + d.0, p.row + d.1)
  }

  function Neighbour(p: Pos, s: Side): Pos
  {
    Step(p, Offset(s))
  }

  /** The grid proper: `cells[i][j]` is the cell in column i, row j, and the
      declared dimensions the searches bound their moves by. */
  datatype Maze = Maze(numCols: int, numRows: int, cells: seq<seq<Cell>>)

  predicate Valid(m: Maze)
  {
    && |m.cells| == m.numCols
    && forall i | 0 <= i < |m.cells| :: |m.cells[i]| == m.numRows
  }

  predicate InBounds(m: Maze, p: Pos)
  {
    0 <= p.col < m.numCols && 0 <= p.row < m.numRows
  }

  /** The goal cell, bottom-right. */
  function Goal(m: Maze): Pos
  {
    Pos(m.numCols - 1, m.numRows - 1)
  }

  function At(m: Maze, p: Pos): Cell
    requires Valid(m) && InBounds(m, p)
  {
    m.cells[p.col][p.row]
  }

  /** Replaces one cell and leaves every other cell as it was. */
  function Update(m: Maze, p: Pos, c: Cell): (r: Maze)
    requires Valid(m) && InBounds(m, p)
    ensures Valid(r) && r.numCols == m.numCols && r.numRows == m.numRows
    ensures At(r, p) == c
    ensures forall q | InBounds(m, q) && q != p :: At(r, q) == At(m, q)
  {
    m.(cells := m.cells[p.col := m.cells[p.col][p.row := c]])
  }

  /** A move from `p` across side `s` is open: the neighbour there is inside
      the grid and the wall of `p` itself on that side is down. Only the
      flag of the cell being left is consulted, never the neighbour's. */
  predicate Passage(m: Maze, p: Pos, s: Side)
    requires Valid(m)
  {
    InBounds(m, p) && InBounds(m, Neighbour(p, s)) && !HasWall(At(m, p), s)
  }

  /** Two grids of the same shape whose cells agree on every wall flag. */
  ghost predicate SameWalls(m: Maze, m': Maze)
  {
    && Valid(m) && Valid(m')
    && m'.numCols == m.numCols && m'.numRows == m.numRows
    && forall p | InBounds(m, p) :: SameWallsCell(At(m, p), At(m', p))
  }

  /** Going from `m` to `m'` only knocks walls down: none is ever put back. */
  ghost predicate WallsOnlyCleared(m: Maze, m': Maze)
  {
    && Valid(m) && Valid(m')
    && m'.numCols == m.numCols && m'.numRows == m.numRows
    && forall p, s | InBounds(m, p) && !HasWall(At(m, p), s) :: !HasWall(At(m', p), s)
  }

  lemma SameWallsTransitive(m: Maze, m': Maze, m'': Maze)
    requires SameWalls(m, m') && SameWalls(m', m'')
    ensures SameWalls(m, m'')
  {
  }

  /** Every position of a `cols` by `rows` grid. */
  ghost function Rect(cols: int, rows: int): (r: set<Pos>)
    ensures forall p :: p in r <==> 0 <= p.col < cols && 0 <= p.row < rows
  {
    set i, j | 0 <= i < cols && 0 <= j < rows :: Pos(i, j)
  }

  ghost function AllCells(m: Maze): set<Pos>
  {
    Rect(m.numCols, m.numRows)
  }

  /** The positions whose cell carries the visited mark. */
  ghost function Visited(m: Maze): (r: set<Pos>)
    requires Valid(m)
    ensures forall p :: p in r <==> InBounds(m, p) && At(m, p).visited
  {
    set i, j | 0 <= i < m.numCols && 0 <= j < m.numRows && m.cells[i][j].visited :: Pos(i, j)
  }

  ghost function Unvisited(m: Maze): set<Pos>
    requires Valid(m)
  {
    AllCells(m) - Visited(m)
  }

  /** Grids of one shape whose cells agree on their marks have the same visited set. */
  lemma SameMarksSameVisited(m: Maze, m': Maze)
    requires Valid(m) && Valid(m') && m'.numCols == m.numCols && m'.numRows == m.numRows
    requires forall p | InBounds(m, p) :: At(m', p).visited == At(m, p).visited
    ensures Visited(m') == Visited(m)
  {
  }

  /** Knocks down the wall of `p` on side `s`; no other flag or mark changes. */
  function ClearWall(m: Maze, p: Pos, s: Side): (r: Maze)
    requires Valid(m) && InBounds(m, p)
    ensures WallsOnlyCleared(m, r) && Visited(r) == Visited(m)
    ensures !HasWall(At(r, p), s)
    ensures forall q, t | InBounds(m, q) && (q, t) != (p, s) :: HasWall(At(r, q), t) == HasWall(At(m, q), t)
  {
    var r := Update(m, p, WithoutWall(At(m, p), s));
    SameMarksSameVisited(m, r);
    r
  }

  lemma WallsOnlyClearedTransitive(m: Maze, m': Maze, m'': Maze)
    requires WallsOnlyCleared(m, m') && WallsOnlyCleared(m', m'')
    ensures WallsOnlyCleared(m, m'')
  {
  }

  /** Every wall knocked down on the way from `m` to `m'` faces a cell of
      the grid: the outer frame is left alone. */
  ghost predicate ClearsOnlyInward(m: Maze, m': Maze)
    requires Valid(m) && Valid(m') && m'.numCols == m.numCols && m'.numRows == m.numRows
  {
    forall q, t | InBounds(m, q) && HasWall(At(m, q), t) && !HasWall(At(m', q), t) :: InBounds(m, Neighbour(q, t))
  }

  lemma ClearsOnlyInwardTransitive(m: Maze, m': Maze, m'': Maze)
    requires WallsOnlyCleared(m, m') && WallsOnlyCleared(m', m'')
    requires ClearsOnlyInward(m, m') && ClearsOnlyInward(m', m'')
    ensures ClearsOnlyInward(m, m'')
  {
  }

  /** Knocking down a wall that faces a cell of the grid leaves the frame alone. */
  lemma ClearWallInward(m: Maze, p: Pos, s: Side)
    requires Valid(m) && InBounds(m, p) && InBounds(m, Neighbour(p, s))
    ensures ClearsOnlyInward(m, ClearWall(m, p, s))
  {
  }

  /** Changing only marks first does not add to the walls knocked down. */
  lemma SameWallsThenInward(m: Maze, m': Maze, m'': Maze)
    requires SameWalls(m, m') && WallsOnlyCleared(m', m'') && ClearsOnlyInward(m', m'')
    ensures ClearsOnlyInward(m, m'')
  {
    forall q, t | InBounds(m, q) && HasWall(At(m, q), t) && !HasWall(At(m'', q), t)
      ensures InBounds(m, Neighbour(q, t))
    {
      assert SameWallsCell(At(m, q), At(m', q));
      assert HasWall(At(m', q), t);
    }
  }

  /** Changing only marks and then only knocking walls down only knocks walls down. */
  lemma SameWallsThenCleared(m: Maze, m': Maze, m'': Maze)
    requires SameWalls(m, m') && WallsOnlyCleared(m', m'')
    ensures WallsOnlyCleared(m, m'')
  {
    forall p, s | InBounds(m, p) && !HasWall(At(m, p), s)
      ensures !HasWall(At(m'', p), s)
    {
      assert SameWallsCell(At(m, p), At(m', p));
    }
  }

  /** Marks one cell visited; only that cell's mark changes. */
  function MarkVisited(m: Maze, p: Pos): (r: Maze)
    requires Valid(m) && InBounds(m, p)
    ensures Valid(r) && r.numCols == m.numCols && r.numRows == m.numRows
    ensures SameWalls(m, r)
    ensures Visited(r) == Visited(m) + {p}
  {
    Update(m, p, At(m, p).(visited := true))
  }

  /** Allocation of the grid: `cols` columns of `rows` fresh cells each. */
  function CreateCells(cols: nat, rows: nat): (r: Maze)
    ensures Valid(r) && r.numCols == cols && r.numRows == rows
    ensures |r.cells| == cols && forall i | 0 <= i < cols :: |r.cells[i]| == rows
    ensures forall p, s | InBounds(r, p) :: HasWall(At(r, p), s)
    ensures Visited(r) == {}
  {
    Maze(cols, rows, seq(cols, _ => seq(rows, _ => FreshCell())))
  }

  /** Clears every cell's visited mark and touches no wall. */
  function ResetVisited(m: Maze): (r: Maze)
    requires Valid(m)
    ensures Valid(r) && r.numCols == m.numCols && r.numRows == m.numRows
    ensures SameWalls(m, r)
    ensures Visited(r) == {}
  {
    var cells := seq(|m.cells|, i requires 0 <= i < |m.cells| =>
      seq(|m.cells[i]|, j requires 0 <= j < |m.cells[i]| => m.cells[i][j].(visited := false)));
    Maze(m.numCols, m.numRows, cells)
  }

  /** The positions of one column. */
  ghost function Column(col: int, rows: int): (r: set<Pos>)
    ensures forall p :: p in r <==> p.col == col && 0 <= p.row < rows
  {
    set j | 0 <= j < rows :: Pos(col, j)
  }

  /** A column splits into its cells but the last, and the last cell. */
  lemma ColumnSplit(col: int, rows: int)
    requires rows > 0
    ensures Column(col, rows) == Column(col, rows - 1) + {Pos(col, rows - 1)}
    ensures Pos(col, rows - 1) !in Column(col, rows - 1)
  {
  }

  lemma {:induction false} ColumnSize(col: int, rows: nat)
    ensures |Column(col, rows)| == rows
  {
    if rows > 0 {
      ColumnSize(col, rows - 1);
      ColumnSplit(col, rows);
    } else {
      assert Column(col, rows) == {};
    }
  }

  /** A grid splits into its columns but the last, and the last column. */
  lemma RectSplit(cols: int, rows: int)
    requires cols > 0
    ensures Rect(cols, rows) == Rect(cols - 1, rows) + Column(cols - 1, rows)
    ensures Rect(cols - 1, rows) * Column(cols - 1, rows) == {}
  {
  }

  lemma DisjointUnionSize<T>(a: set<T>, b: set<T>)
    requires a * b == {}
    ensures |a + b| == |a| + |b|
  {
  }

  /** The number of cells of a grid of `cols` columns and `rows` rows. */
  function CellCount(cols: nat, rows: nat): nat
  {
    cols * rows
  }

  /** A grid of `cols` columns and `rows` rows has exactly cols * rows cells. */
  lemma {:induction false} RectSize(cols: nat, rows: nat)
    ensures |Rect(cols, rows)| == cols * rows
  {
    if cols > 0 {
      RectSize(cols - 1, rows);
      ColumnSize(cols - 1, rows);
      RectSplit(cols, rows);
      DisjointUnionSize(Rect(cols - 1, rows), Column(cols - 1, rows));
      assert cols * rows == (cols - 1) * rows + rows;
    } else {
      assert Rect(cols, rows) == {};
    }
  }
}
