/** The board of the snake game: a fixed 30 by 20 grid of cells, the four
    directions of travel, the one-cell step and the edge correction that
    joins opposite borders (the game's wrap-around policy). */
module Grid {

  /** Number of columns and rows of the board. */
  const GridWidth: int := 30
  const GridHeight: int := 20
  const CellCount: int := GridWidth * GridHeight

  /** A board cell; y grows downwards, as on the screen. */
  datatype Cell = Cell(x: int, y: int)

  datatype Direction = Up | Down | Left | Right

  predicate InGrid(c: Cell) {
    0 <= c.x < GridWidth && 0 <= c.y < GridHeight
  }

  function Abs(n: int): nat {
    if n < 0 then -n else n
  }

  /** Two cells that share an edge (no wrap-around). */
  predicate Adjacent(a: Cell, b: Cell) {
    Abs(a.x - b.x) + Abs(a.y - b.y) == 1
  }

  function Opposite(d: Direction): Direction {
    match d
    case Up => Down
    case Down => Up
    case Left => Right
    case Right => Left
  }

  /** The neighbour of c in direction d, before any edge correction. */
  function Step(c: Cell, d: Direction): (r: Cell)
    ensures Adjacent(c, r)
    ensures d == Left || d == Right ==> r.y == c.y
    ensures d == Up || d == Down ==> r.x == c.x
    ensures d == Up ==> r.y < c.y
    ensures d == Down ==> r.y > c.y
    ensures d == Left ==> r.x < c.x
    ensures d == Right ==> r.x > c.x
  {
    match d
    case Up => c.(y := c.y - 1)
    case Down => c.(y := c.y + 1)
    case Left => c.(x := c.x - 1)
    case Right => c.(x := c.x + 1)
  }

  /** Edge correction of a candidate head: a coordinate below zero becomes
      the last column (row), one at or past the width (height) becomes zero.
      This is not a modulo; it agrees with one only for the one-cell
      overshoot that a single step can produce. */
  function Wrap(c: Cell): (r: Cell)
    ensures InGrid(r)
    ensures -1 <= c.x <= GridWidth ==> r.x == c.x % GridWidth
    ensures -1 <= c.y <= GridHeight ==> r.y == c.y % GridHeight
  {
    var x0 := if c.x < 0 then GridWidth - 1 else c.x;
    var x1 := if x0 >= GridWidth then 0 else x0;
    var y0 := if c.y < 0 then GridHeight - 1 else c.y;
    var y1 := if y0 >= GridHeight then 0 else y0;
    Cell(x1, y1)
  }

  /** The cells of a snake body are pairwise different. */
  predicate Distinct(s: seq<Cell>) {
    forall i, j :: 0 <= i < j < |s| ==> s[i] != s[j]
  }

  predicate AllInGrid(s: seq<Cell>) {
    forall i :: 0 <= i < |s| ==> InGrid(s[i])
  }

  // ---------------------------------------------------------------------
  // Counting the board: a body of fewer than CellCount distinct cells
  // leaves at least one board cell free. This is what makes the food
  // placement loop able to stop.
  // ---------------------------------------------------------------------

  /** Row-major number of a cell. */
  function Index(c: Cell): int {
    c.y * GridWidth + c.x
  }

  /** The cell with row-major number k. */
  function CellAt(k: int): (c: Cell)
    requires 0 <= k < CellCount
    ensures InGrid(c) && Index(c) == k
  {
    Cell(k % GridWidth, k / GridWidth)
  }

  /** The board cells numbered below n. */
  ghost function CellsBelow(n: nat): set<Cell>
    requires n <= CellCount
  {
    if n == 0 then {} else CellsBelow(n - 1) + {CellAt(n - 1)}
  }

  lemma {:induction false} CellsBelowSize(n: nat)
    requires n <= CellCount
    ensures |CellsBelow(n)| == n
    ensures forall c :: c in CellsBelow(n) ==> InGrid(c) && Index(c) < n
  {
    if n > 0 {
      CellsBelowSize(n - 1);
      assert CellAt(n - 1) !in CellsBelow(n - 1);
    }
  }

  lemma {:induction false} CellsBelowCover(n: nat)
    requires n <= CellCount
    ensures forall c :: InGrid(c) && Index(c) < n ==> c in CellsBelow(n)
  {
    if n > 0 {
      CellsBelowCover(n - 1);
      forall c | InGrid(c) && Index(c) < n
        ensures c in CellsBelow(n)
      {
        if Index(c) == n - 1 {
          assert c == CellAt(n - 1);
        }
      }
    }
  }

  ghost function Elements(s: seq<Cell>): set<Cell> {
    set c | c in s
  }

  lemma {:induction false} DistinctElements(s: seq<Cell>)
    requires Distinct(s)
    ensures |Elements(s)| == |s|
  {
    if s != [] {
      DistinctElements(s[1..]);
      assert Elements(s) == {s[0]} + Elements(s[1..]);
      assert s[0] !in Elements(s[1..]);
    }
  }

  lemma SubsetSize(a: set<Cell>, b: set<Cell>)
    requires a <= b
    ensures |a| <= |b|
  {
    assert b == a + (b - a);
  }

  /** Pigeonhole: a body of distinct cells shorter than the board leaves a
      board cell free. */
  lemma FreeCellExists(s: seq<Cell>)
    requires Distinct(s) && |s| < CellCount
    ensures exists c :: InGrid(c) && c !in s
  {
    if forall c :: InGrid(c) ==> c in s {
      CellsBelowSize(CellCount);
      CellsBelowCover(CellCount);
      SubsetSize(CellsBelow(CellCount), Elements(s));
      DistinctElements(s);
      assert false;
    }
  }

  // ---------------------------------------------------------------------
  // Properties of the edge correction.
  // ---------------------------------------------------------------------

  /** A stepped head from an on-board cell lands where a true modulo would
      put it, since one step never overshoots by more than one cell, and it
      never lands back on the cell it left. */
  lemma StepThenWrapIsModular(c: Cell, d: Direction)
    requires InGrid(c)
    ensures Wrap(Step(c, d)) == Cell(Step(c, d).x % GridWidth, Step(c, d).y % GridHeight)
    ensures Wrap(Step(c, d)) != c
  {
  }

  /** The border cases named by the game: x = -1 goes to the last column,
      x = 30 to the first, and likewise for rows; on-board cells stay. */
  lemma WrapBorders(c: Cell)
    ensures Wrap(Cell(-1, c.y)).x == GridWidth - 1 && Wrap(Cell(GridWidth, c.y)).x == 0
    ensures Wrap(Cell(c.x, -1)).y == GridHeight - 1 && Wrap(Cell(c.x, GridHeight)).y == 0
    ensures InGrid(c) ==> Wrap(c) == c
  {
  }

  /** Off the board the correction sends every negative coordinate to the
      last column (row) and every coordinate at or past the width (height)
      to zero, however far out it lies; so it is not a modulo: x = -2
      becomes 29 (a modulo gives 28) and x = 31 becomes 0 (a modulo gives 1). */
  lemma WrapIsNotModulo(c: Cell)
    ensures c.x < 0 ==> Wrap(c).x == GridWidth - 1
    ensures c.x >= GridWidth ==> Wrap(c).x == 0
    ensures c.y < 0 ==> Wrap(c).y == GridHeight - 1
    ensures c.y >= GridHeight ==> Wrap(c).y == 0
    ensures Wrap(Cell(-2, 0)).x == 29 && (-2) % GridWidth == 28
    ensures Wrap(Cell(31, 0)).x == 0 && 31 % GridWidth == 1
  {
  }
}
