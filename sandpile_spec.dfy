/**
 * Pure specification of the sandpile reference model: a grid is a sequence of
 * `rows` rows of `columns` counters, indexed grid[x][y] with x < rows and
 * y < columns.  One relaxation pass (a "topple cycle") reads only the pre-pass
 * grid: every cell at or above the threshold sheds exactly `threshold` grains
 * and each of its orthogonal neighbours that lies inside the grid gains one;
 * grains aimed outside the grid are lost.
 */
module SandpileSpec {

  type Grid = seq<seq<int>>

  /** g has exactly `rows` rows of `columns` cells each. */
  predicate IsGrid(g: Grid, rows: nat, columns: nat) {
    |g| == rows && forall x :: 0 <= x < rows ==> |g[x]| == columns
  }

  predicate InGrid(rows: nat, columns: nat, x: int, y: int) {
    0 <= x < rows && 0 <= y < columns
  }

  /** The grid of the given shape whose every cell holds `value`. */
  function Filled(rows: nat, columns: nat, value: int): (g: Grid)
    ensures IsGrid(g, rows, columns)
    ensures forall x, y :: InGrid(rows, columns, x, y) ==> g[x][y] == value
  {
    seq(rows, x => seq(columns, y => value))
  }

  /** Some cell of g holds at least t grains. */
  predicate AnyAtLeast(g: Grid, rows: nat, columns: nat, t: int)
    requires IsGrid(g, rows, columns)
  {
    exists x, y :: 0 <= x < rows && 0 <= y < columns && g[x][y] >= t
  }

  /** g with cell (x, y) raised by one grain. */
  function Drop(g: Grid, rows: nat, columns: nat, x: nat, y: nat): (r: Grid)
    requires IsGrid(g, rows, columns) && InGrid(rows, columns, x, y)
    ensures IsGrid(r, rows, columns)
    ensures r[x][y] == g[x][y] + 1
    ensures forall a, b :: InGrid(rows, columns, a, b) && (a, b) != (x, y) ==> r[a][b] == g[a][b]
  {
    g[x := g[x][y := g[x][y] + 1]]
  }

  /** 1 when (p, q) lies inside the grid and topples in g, else 0. */
  function ToppleAt(g: Grid, rows: nat, columns: nat, t: int, p: int, q: int): int
    requires IsGrid(g, rows, columns)
  {
    if InGrid(rows, columns, p, q) && g[p][q] >= t then 1 else 0
  }

  /** Number of toppling orthogonal neighbours of (x, y). */
  function Incoming(g: Grid, rows: nat, columns: nat, t: int, x: int, y: int): int
    requires IsGrid(g, rows, columns)
  {
    ToppleAt(g, rows, columns, t, x - 1, y) + ToppleAt(g, rows, columns, t, x + 1, y)
    + ToppleAt(g, rows, columns, t, x, y - 1) + ToppleAt(g, rows, columns, t, x, y + 1)
  }

  /** Value of cell (x, y) after one pass over g. */
  function NextCell(g: Grid, rows: nat, columns: nat, t: int, x: nat, y: nat): int
    requires IsGrid(g, rows, columns) && InGrid(rows, columns, x, y)
  {
    g[x][y] - (if g[x][y] >= t then t else 0) + Incoming(g, rows, columns, t, x, y)
  }

  /** One synchronous relaxation pass over g. */
  function TopplePass(g: Grid, rows: nat, columns: nat, t: int): (r: Grid)
    requires IsGrid(g, rows, columns)
    ensures IsGrid(r, rows, columns)
  {
    seq(rows, x requires 0 <= x < rows => seq(columns, y requires 0 <= y < columns => NextCell(g, rows, columns, t, x, y)))
  }

  /** Number of orthogonal neighbours of (x, y) that lie inside the grid. */
  function InGridNeighbours(rows: nat, columns: nat, x: int, y: int): (k: nat)
    ensures k <= 4
    ensures InGrid(rows, columns, x, y) && 0 < x < rows - 1 && 0 < y < columns - 1 ==> k == 4
    ensures 2 <= rows && 2 <= columns && (x == 0 || x == rows - 1) && (y == 0 || y == columns - 1) ==> k == 2
  {
    (if InGrid(rows, columns, x - 1, y) then 1 else 0) + (if InGrid(rows, columns, x + 1, y) then 1 else 0)
    + (if InGrid(rows, columns, x, y - 1) then 1 else 0) + (if InGrid(rows, columns, x, y + 1) then 1 else 0)
  }

  // ---------------------------------------------------------------------------
  // Row-major processing order, as the reference loop visits the cells.
  // ---------------------------------------------------------------------------

  /** Cell (a, b) is visited before position (x, y). */
  predicate Before(a: int, b: int, x: int, y: int) {
    a < x || (a == x && b < y)
  }

  /** Some cell visited before position (x, y) holds at least t grains. */
  predicate AnyBefore(g: Grid, rows: nat, columns: nat, t: int, x: int, y: int)
    requires IsGrid(g, rows, columns)
  {
    exists a, b :: 0 <= a < rows && 0 <= b < columns && Before(a, b, x, y) && g[a][b] >= t
  }

  /** Visiting (x, y) adds exactly that cell to the cells already seen. */
  lemma AnyBeforeStep(g: Grid, rows: nat, columns: nat, t: int, x: nat, y: nat)
    requires IsGrid(g, rows, columns) && InGrid(rows, columns, x, y)
    ensures AnyBefore(g, rows, columns, t, x, y + 1) <==> AnyBefore(g, rows, columns, t, x, y) || g[x][y] >= t
  {
    if AnyBefore(g, rows, columns, t, x, y + 1) && g[x][y] < t {
      var a, b :| 0 <= a < rows && 0 <= b < columns && Before(a, b, x, y + 1) && g[a][b] >= t;
      assert Before(a, b, x, y);
    }
  }

  /** The end of row x is the start of row x + 1; after the last row every cell has been seen. */
  lemma AnyBeforeRowEnd(g: Grid, rows: nat, columns: nat, t: int, x: nat)
    requires IsGrid(g, rows, columns)
    ensures AnyBefore(g, rows, columns, t, x, columns) <==> AnyBefore(g, rows, columns, t, x + 1, 0)
    ensures AnyBefore(g, rows, columns, t, rows, 0) <==> AnyAtLeast(g, rows, columns, t)
    ensures !AnyBefore(g, rows, columns, t, 0, 0)
  {
    if AnyBefore(g, rows, columns, t, x + 1, 0) {
      var a, b :| 0 <= a < rows && 0 <= b < columns && Before(a, b, x + 1, 0) && g[a][b] >= t;
      assert Before(a, b, x, columns);
    }
  }

  /** 1 when (p, q) is in the grid, already visited at (x, y), and topples. */
  function VisitedTopple(g: Grid, rows: nat, columns: nat, t: int, p: int, q: int, x: int, y: int): int
    requires IsGrid(g, rows, columns)
  {
    if InGrid(rows, columns, p, q) && Before(p, q, x, y) && g[p][q] >= t then 1 else 0
  }

  /**
   * Value of cell (a, b) of the output buffer once every cell before (x, y)
   * has been processed: the copy of g, minus the threshold if (a, b) itself
   * was processed and toppled, plus one per processed toppling neighbour.
   */
  function Partial(g: Grid, rows: nat, columns: nat, t: int, a: nat, b: nat, x: int, y: int): int
    requires IsGrid(g, rows, columns) && InGrid(rows, columns, a, b)
  {
    g[a][b] - (if Before(a, b, x, y) && g[a][b] >= t then t else 0)
    + VisitedTopple(g, rows, columns, t, a - 1, b, x, y) + VisitedTopple(g, rows, columns, t, a + 1, b, x, y)
    + VisitedTopple(g, rows, columns, t, a, b - 1, x, y) + VisitedTopple(g, rows, columns, t, a, b + 1, x, y)
  }

  function PartialGrid(g: Grid, rows: nat, columns: nat, t: int, x: int, y: int): (r: Grid)
    requires IsGrid(g, rows, columns)
    ensures IsGrid(r, rows, columns)
  {
    seq(rows, a requires 0 <= a < rows => seq(columns, b requires 0 <= b < columns => Partial(g, rows, columns, t, a, b, x, y)))
  }

  /** Two grids of one shape that agree on every cell are equal. */
  lemma SameCells(g: Grid, h: Grid, rows: nat, columns: nat)
    requires IsGrid(g, rows, columns) && IsGrid(h, rows, columns)
    requires forall x, y :: 0 <= x < rows && 0 <= y < columns ==> g[x][y] == h[x][y]
    ensures g == h
  {
    forall x | 0 <= x < rows
      ensures g[x] == h[x]
    {
      assert forall y :: 0 <= y < columns ==> g[x][y] == h[x][y];
    }
  }

  /** Before anything is processed the output buffer is the copy of g. */
  lemma PartialStart(g: Grid, rows: nat, columns: nat, t: int)
    requires IsGrid(g, rows, columns)
    ensures forall a, b :: 0 <= a < rows && 0 <= b < columns ==> Partial(g, rows, columns, t, a, b, 0, 0) == g[a][b]
  {
  }

  /** Once every row is processed the output buffer holds the pass result. */
  lemma PartialEnd(g: Grid, rows: nat, columns: nat, t: int)
    requires IsGrid(g, rows, columns)
    ensures forall a, b :: 0 <= a < rows && 0 <= b < columns ==> Partial(g, rows, columns, t, a, b, rows, 0) == NextCell(g, rows, columns, t, a, b)
  {
  }

  /** The end of row x is the start of row x + 1. */
  lemma PartialRowEnd(g: Grid, rows: nat, columns: nat, t: int, x: int)
    requires IsGrid(g, rows, columns)
    ensures forall a, b :: 0 <= a < rows && 0 <= b < columns ==> Partial(g, rows, columns, t, a, b, x, columns) == Partial(g, rows, columns, t, a, b, x + 1, 0)
  {
  }

  // ---------------------------------------------------------------------------
  // Properties of one pass.
  // ---------------------------------------------------------------------------

  /** A pile with no cell at the threshold is left exactly as it is by a pass. */
  lemma AtRest(g: Grid, rows: nat, columns: nat, t: int)
    requires IsGrid(g, rows, columns) && !AnyAtLeast(g, rows, columns, t)
    ensures TopplePass(g, rows, columns, t) == g
  {
    SameCells(TopplePass(g, rows, columns, t), g, rows, columns);
  }

  /** The empty pile the reset leaves behind reports no topple and is at rest. */
  lemma EmptyPileAtRest(rows: nat, columns: nat, t: int)
    requires t > 0
    ensures !AnyAtLeast(Filled(rows, columns, 0), rows, columns, t)
    ensures TopplePass(Filled(rows, columns, 0), rows, columns, t) == Filled(rows, columns, 0)
  {
    AtRest(Filled(rows, columns, 0), rows, columns, t);
  }

  /** Every cell of g lies in lo..hi. */
  predicate CellsWithin(g: Grid, rows: nat, columns: nat, lo: int, hi: int)
    requires IsGrid(g, rows, columns)
  {
    forall x, y :: 0 <= x < rows && 0 <= y < columns ==> lo <= g[x][y] <= hi
  }

  /**
   * A pass never makes a cell negative, and with threshold t >= 4 a pile whose
   * cells fit in 0..t+3 (0..7 for the default threshold, a 3-bit counter)
   * still fits after the pass.
   */
  lemma PassKeepsRange(g: Grid, rows: nat, columns: nat, t: int)
    requires IsGrid(g, rows, columns) && t >= 4 && CellsWithin(g, rows, columns, 0, t + 3)
    ensures CellsWithin(TopplePass(g, rows, columns, t), rows, columns, 0, t + 3)
  {
  }

  /** Whatever the threshold, a pass over a pile with no negative cell leaves none. */
  lemma PassKeepsNonNegative(g: Grid, rows: nat, columns: nat, t: int)
    requires IsGrid(g, rows, columns)
    requires forall x, y :: 0 <= x < rows && 0 <= y < columns ==> g[x][y] >= 0
    ensures forall x, y :: 0 <= x < rows && 0 <= y < columns ==> TopplePass(g, rows, columns, t)[x][y] >= 0
  {
  }

  /** (a, b) is one of the four orthogonal neighbours of (x, y). */
  predicate Adjacent(a: int, b: int, x: int, y: int) {
    (a == x && (b == y - 1 || b == y + 1)) || (b == y && (a == x - 1 || a == x + 1))
  }

  /**
   * One grain dropped on a pile holding t - 1 everywhere: the pass empties the
   * drop cell, raises each of its in-grid neighbours to the threshold and
   * leaves every other cell at t - 1.
   */
  lemma DropOnFullPile(rows: nat, columns: nat, t: int, x: nat, y: nat)
    requires InGrid(rows, columns, x, y)
    ensures var g := Drop(Filled(rows, columns, t - 1), rows, columns, x, y);
      AnyAtLeast(g, rows, columns, t) &&
      forall a, b :: 0 <= a < rows && 0 <= b < columns ==>
        TopplePass(g, rows, columns, t)[a][b] == (if a == x && b == y then 0 else if Adjacent(a, b, x, y) then t else t - 1)
  {
    var g := Drop(Filled(rows, columns, t - 1), rows, columns, x, y);
    forall a, b | 0 <= a < rows && 0 <= b < columns
      ensures TopplePass(g, rows, columns, t)[a][b] == (if a == x && b == y then 0 else if Adjacent(a, b, x, y) then t else t - 1)
    {
      assert Incoming(g, rows, columns, t, a, b) == (if Adjacent(a, b, x, y) then 1 else 0);
    }
  }
}
