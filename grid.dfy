/** Board geometry shared by the search and the game: cells, bounds,
    one-step adjacency, the neighbour list and the distance estimate. */
module Grid {

  /** Side of one board cell in pixels; every coordinate moves in steps of it. */
  const UnitSize: int := 25

  /** A board position in pixels. Two cells are the same cell iff their
      coordinates are equal (findPath keys its maps by the text "x,y",
      which is injective on integer pairs). */
  datatype Cell = Cell(x: int, y: int)

  predicate InBounds(c: Cell, width: int, height: int) {
    0 <= c.x < width && 0 <= c.y < height
  }

  /** b is exactly one unit away from a on exactly one axis. */
  predicate Adjacent(a: Cell, b: Cell) {
    || (a.y == b.y && (b.x == a.x + UnitSize || b.x == a.x - UnitSize))
    || (a.x == b.x && (b.y == a.y + UnitSize || b.y == a.y - UnitSize))
  }

  /** One move of the search: to an adjacent in-bounds cell that is not
      occupied by the snake. */
  predicate Step(a: Cell, b: Cell, body: seq<Cell>, width: int, height: int) {
    Adjacent(a, b) && InBounds(b, width, height) && b !in body
  }

  /** No cell occurs twice in s. */
  predicate Distinct(s: seq<Cell>) {
    forall i, j :: 0 <= i < j < |s| ==> s[i] != s[j]
  }

  /** r is s with some cells left out, the rest in their original order. */
  predicate IsSubsequence(r: seq<Cell>, s: seq<Cell>)
    decreases |s|
  {
    if r == [] then true
    else if s == [] then false
    else if r[0] == s[0] then IsSubsequence(r[1..], s[1..])
    else IsSubsequence(r, s[1..])
  }

  /** The four candidate moves, in the order getNeighbors lists them:
      right, left, down, up. */
  function Candidates(c: Cell): (r: seq<Cell>)
    ensures |r| == 4 && Distinct(r)
    ensures forall n :: n in r <==> Adjacent(c, n)
  {
    [Cell(c.x + UnitSize, c.y), Cell(c.x - UnitSize, c.y),
     Cell(c.x, c.y + UnitSize), Cell(c.x, c.y - UnitSize)]
  }

  /** The in-bounds members of s, in their original order. */
  function KeepInBounds(s: seq<Cell>, width: int, height: int): (r: seq<Cell>)
    ensures |r| <= |s| && IsSubsequence(r, s)
    ensures forall n :: n in r <==> n in s && InBounds(n, width, height)
    ensures Distinct(s) ==> Distinct(r)
  {
    if s == [] then []
    else
      var rest := KeepInBounds(s[1..], width, height);
      if InBounds(s[0], width, height) then
        assert Distinct(s) ==> s[0] !in s[1..];
        assert ([s[0]] + rest)[1..] == rest;
        [s[0]] + rest
      else
        assert rest != [] ==> rest[0] != s[0];
        rest
  }

  /** getNeighbors: the candidate moves that stay on the board, in the
      candidates' order and each once. */
  function Neighbors(c: Cell, width: int, height: int): (r: seq<Cell>)
    ensures |r| <= 4 && Distinct(r) && IsSubsequence(r, Candidates(c))
    ensures forall n :: n in r <==> Adjacent(c, n) && InBounds(n, width, height)
  {
    KeepInBounds(Candidates(c), width, height)
  }

  function Abs(v: int): nat {
    if v < 0 then -v else v
  }

  /** heuristic: Manhattan distance in PIXELS. The search counts its cost
      g in steps, so this estimate is UnitSize times too large. */
  function Heuristic(node: Cell, goal: Cell): (r: nat)
    ensures r == 0 <==> node == goal
  {
    Abs(node.x - goal.x) + Abs(node.y - goal.y)
  }

  /** Consecutive cells of s are adjacent. */
  predicate Contiguous(s: seq<Cell>) {
    forall i :: 0 < i < |s| ==> Adjacent(s[i - 1], s[i])
  }

  /** Any walk of n unit steps bridges a pixel distance of at most
      UnitSize * n. */
  lemma {:induction false} WalkBoundsHeuristic(walk: seq<Cell>)
    requires |walk| >= 1 && Contiguous(walk)
    ensures Heuristic(walk[0], walk[|walk| - 1]) <= UnitSize * (|walk| - 1)
  {
    if |walk| > 1 {
      var prefix := walk[..|walk| - 1];
      assert Contiguous(prefix) by {
        forall i | 0 < i < |prefix| ensures Adjacent(prefix[i - 1], prefix[i]) {
          assert prefix[i - 1] == walk[i - 1] && prefix[i] == walk[i];
        }
      }
      WalkBoundsHeuristic(prefix);
      assert Adjacent(walk[|walk| - 2], walk[|walk| - 1]);
    }
  }

  /** The estimate is not admissible for step costs: one step costs 1 but
      is estimated at UnitSize. */
  lemma HeuristicOverestimatesOneStep(a: Cell, b: Cell)
    requires Adjacent(a, b)
    ensures Heuristic(a, b) == UnitSize * 1 > 1
  {
  }

  /** The board's sides are whole numbers of cells and c is one of its
      grid positions (or a multiple of UnitSize outside it). */
  predicate Aligned(c: Cell, width: int, height: int) {
    && width >= 0 && height >= 0
    && width % UnitSize == 0 && height % UnitSize == 0
    && c.x % UnitSize == 0 && c.y % UnitSize == 0
  }

  /** The cells of the board that lie on the grid through origin: inside
      [0, width) x [0, height) and a whole number of units away from origin
      on both axes. For origin (0, 0) these are the board's cells. */
  ghost function Lattice(origin: Cell, width: int, height: int): set<Cell> {
    set x: int, y: int | 0 <= x < width && 0 <= y < height
                         && (x - origin.x) % UnitSize == 0 && (y - origin.y) % UnitSize == 0
      :: Cell(x, y)
  }

  /** A move from origin, or from a cell on its lattice, to an in-bounds
      cell stays on the lattice. */
  lemma LatticeClosed(origin: Cell, c: Cell, n: Cell, width: int, height: int)
    requires c == origin || c in Lattice(origin, width, height)
    requires Adjacent(c, n) && InBounds(n, width, height)
    ensures n in Lattice(origin, width, height)
  {
  }

  /** For a start on the board's grid, its lattice is the set of the
      board's cells. */
  lemma AlignedLatticeIsBoard(c: Cell, width: int, height: int)
    requires c.x % UnitSize == 0 && c.y % UnitSize == 0
    ensures Lattice(c, width, height) == Lattice(Cell(0, 0), width, height)
  {
  }

  /** Row j of the board's grid: the first cols cells of that row. */
  ghost function RowCells(cols: nat, j: int): set<Cell> {
    set i: int | 0 <= i < cols :: Cell(UnitSize * i, UnitSize * j)
  }

  /** The board's grid cells, cols columns by rows rows. */
  ghost function GridCells(cols: nat, rows: nat): set<Cell> {
    set i: int, j: int | 0 <= i < cols && 0 <= j < rows :: Cell(UnitSize * i, UnitSize * j)
  }

  /** A row of cols cells has cols distinct cells. */
  lemma {:induction false} RowSize(cols: nat, j: int)
    ensures |RowCells(cols, j)| == cols
  {
    if cols > 0 {
      RowSize(cols - 1, j);
      var last := Cell(UnitSize * (cols - 1), UnitSize * j);
      assert RowCells(cols, j) == RowCells(cols - 1, j) + {last};
      assert last !in RowCells(cols - 1, j);
    } else {
      assert RowCells(cols, j) == {};
    }
  }

  /** cols columns by rows rows make cols * rows distinct cells. */
  lemma {:induction false} GridSize(cols: nat, rows: nat)
    ensures |GridCells(cols, rows)| == cols * rows
  {
    if rows > 0 {
      GridSize(cols, rows - 1);
      GridSizeStep(cols, rows - 1);
    } else {
      EmptyGrid(cols);
    }
  }

  /** The induction step of GridSize: one more row adds cols cells. */
  lemma GridSizeStep(cols: nat, j: nat)
    requires |GridCells(cols, j)| == cols * j
    ensures |GridCells(cols, j + 1)| == cols * (j + 1)
  {
    RowSize(cols, j);
    GridAddsRow(cols, j);
    UnionSize(GridCells(cols, j), RowCells(cols, j));
    OneMoreRow(cols, j);
  }

  lemma EmptyGrid(cols: nat)
    ensures |GridCells(cols, 0)| == 0
  {
    assert GridCells(cols, 0) == {};
  }

  lemma OneMoreRow(cols: nat, rows: nat)
    ensures cols * rows + cols == cols * (rows + 1)
  {
  }

  lemma UnionSize(a: set<Cell>, b: set<Cell>)
    requires a !! b
    ensures |a + b| == |a| + |b|
  {
    assert a * b == {};
  }

  /** The first j + 1 rows are the first j rows plus row j, which shares
      no cell with them. */
  lemma GridAddsRow(cols: nat, j: nat)
    ensures GridCells(cols, j + 1) == GridCells(cols, j) + RowCells(cols, j)
    ensures GridCells(cols, j) !! RowCells(cols, j)
  {
    forall c | c in GridCells(cols, j + 1)
      ensures c in GridCells(cols, j) + RowCells(cols, j)
    {
      var a, b :| 0 <= a < cols && 0 <= b < j + 1 && c == Cell(UnitSize * a, UnitSize * b);
      if b == j {
        assert c in RowCells(cols, j);
      } else {
        assert c in GridCells(cols, j);
      }
    }
    forall c | c in RowCells(cols, j)
      ensures c !in GridCells(cols, j)
    {
      var a :| 0 <= a < cols && c == Cell(UnitSize * a, UnitSize * j);
    }
  }

  /** On a board whose sides are whole numbers of cells, the lattice through
      (0, 0) has exactly (width / UnitSize) * (height / UnitSize) cells. */
  lemma BoardCellCount(width: nat, height: nat)
    requires width % UnitSize == 0 && height % UnitSize == 0
    ensures |Lattice(Cell(0, 0), width, height)| == (width / UnitSize) * (height / UnitSize)
  {
    var cols, rows := width / UnitSize, height / UnitSize;
    forall c | c in Lattice(Cell(0, 0), width, height)
      ensures c in GridCells(cols, rows)
    {
      var i, j := c.x / UnitSize, c.y / UnitSize;
      assert c == Cell(UnitSize * i, UnitSize * j);
    }
    forall c | c in GridCells(cols, rows)
      ensures c in Lattice(Cell(0, 0), width, height)
    {
      var i, j :| 0 <= i < cols && 0 <= j < rows && c == Cell(UnitSize * i, UnitSize * j);
      assert c.x % UnitSize == 0 && c.y % UnitSize == 0;
    }
    assert Lattice(Cell(0, 0), width, height) == GridCells(cols, rows);
    GridSize(cols, rows);
  }

  /** A grid-aligned start on a board of whole cells: its lattice is the
      whole board, (width / UnitSize) * (height / UnitSize) cells. */
  lemma AlignedLatticeSize(start: Cell, width: int, height: int)
    ensures Aligned(start, width, height) ==>
              |Lattice(start, width, height)| == (width / UnitSize) * (height / UnitSize)
  {
    if Aligned(start, width, height) {
      AlignedLatticeIsBoard(start, width, height);
      BoardCellCount(width, height);
    }
  }
}
