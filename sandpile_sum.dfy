/**
 * Grain accounting for one relaxation pass: the total number of grains falls
 * by `threshold - k` for every toppling cell with k neighbours inside the
 * grid.  With the default threshold 4 an interior topple conserves grains
 * and a topple on the border loses the grains aimed outside.
 */
module SandpileSum {
  import opened SandpileSpec

  function RowSum(r: seq<int>): int {
    if r == [] then 0 else RowSum(r[..|r| - 1]) + r[|r| - 1]
  }

  /** Total number of grains on the grid. */
  function GridSum(g: Grid): int {
    if g == [] then 0 else GridSum(g[..|g| - 1]) + RowSum(g[|g| - 1])
  }

  lemma {:induction false} RowSumUpdate(r: seq<int>, q: nat, v: int)
    requires q < |r|
    ensures RowSum(r[q := v]) == RowSum(r) - r[q] + v
  {
    var n := |r| - 1;
    if q < n {
      assert r[q := v][..n] == r[..n][q := v];
      RowSumUpdate(r[..n], q, v);
    } else {
      assert r[q := v][..n] == r[..n];
    }
  }

  lemma {:induction false} GridSumUpdate(g: Grid, p: nat, row: seq<int>)
    requires p < |g|
    ensures GridSum(g[p := row]) == GridSum(g) - RowSum(g[p]) + RowSum(row)
  {
    var n := |g| - 1;
    if p < n {
      assert g[p := row][..n] == g[..n][p := row];
      GridSumUpdate(g[..n], p, row);
    } else {
      assert g[p := row][..n] == g[..n];
    }
  }

  /** g with d grains added at (p, q) when that cell is inside the grid. */
  function Bump(g: Grid, rows: nat, columns: nat, p: int, q: int, d: int): (r: Grid)
    requires IsGrid(g, rows, columns)
    ensures IsGrid(r, rows, columns)
  {
    if InGrid(rows, columns, p, q) then g[p := g[p][q := g[p][q] + d]] else g
  }

  lemma BumpCell(g: Grid, rows: nat, columns: nat, p: int, q: int, d: int, a: nat, b: nat)
    requires IsGrid(g, rows, columns) && InGrid(rows, columns, a, b)
    ensures Bump(g, rows, columns, p, q, d)[a][b] == g[a][b] + (if a == p && b == q then d else 0)
  {
  }

  lemma BumpSum(g: Grid, rows: nat, columns: nat, p: int, q: int, d: int)
    requires IsGrid(g, rows, columns)
    ensures GridSum(Bump(g, rows, columns, p, q, d)) == GridSum(g) + (if InGrid(rows, columns, p, q) then d else 0)
  {
    if InGrid(rows, columns, p, q) {
      RowSumUpdate(g[p], q, g[p][q] + d);
      GridSumUpdate(g, p, g[p][q := g[p][q] + d]);
    }
  }

  /** Grains lost when (x, y) topples: the threshold minus what its in-grid neighbours receive. */
  function CellLoss(g: Grid, rows: nat, columns: nat, t: int, x: nat, y: nat): int
    requires IsGrid(g, rows, columns) && InGrid(rows, columns, x, y)
  {
    if g[x][y] >= t then t - InGridNeighbours(rows, columns, x, y) else 0
  }

  /** Sum of CellLoss over the cells visited before (x, y) in row-major order. */
  function LossBefore(g: Grid, rows: nat, columns: nat, t: int, x: nat, y: nat): int
    requires IsGrid(g, rows, columns) && x <= rows && y <= columns && (x == rows ==> y == 0)
    decreases x, y
  {
    if y == 0 then (if x == 0 then 0 else LossBefore(g, rows, columns, t, x - 1, columns))
    else LossBefore(g, rows, columns, t, x, y - 1) + CellLoss(g, rows, columns, t, x, y - 1)
  }

  /** Grains lost by one pass over g. */
  function Loss(g: Grid, rows: nat, columns: nat, t: int): int
    requires IsGrid(g, rows, columns)
  {
    LossBefore(g, rows, columns, t, rows, 0)
  }

  /** Change at (a, b) when (x, y) sheds t grains to its four neighbours. */
  function ShedDelta(t: int, a: int, b: int, x: int, y: int): int {
    (if a == x - 1 && b == y then 1 else 0) + (if a == x + 1 && b == y then 1 else 0)
    + (if a == x && b == y - 1 then 1 else 0) + (if a == x && b == y + 1 then 1 else 0)
    - (if a == x && b == y then t else 0)
  }

  /** h after cell (x, y) has given up t grains and each in-grid neighbour has gained one. */
  function ShedGrid(h: Grid, rows: nat, columns: nat, t: int, x: int, y: int): (r: Grid)
    requires IsGrid(h, rows, columns)
    ensures IsGrid(r, rows, columns)
  {
    var b0 := Bump(h, rows, columns, x, y, -t);
    var b1 := Bump(b0, rows, columns, x - 1, y, 1);
    var b2 := Bump(b1, rows, columns, x + 1, y, 1);
    var b3 := Bump(b2, rows, columns, x, y - 1, 1);
    Bump(b3, rows, columns, x, y + 1, 1)
  }

  lemma ShedCell(h: Grid, rows: nat, columns: nat, t: int, x: int, y: int, a: nat, b: nat)
    requires IsGrid(h, rows, columns) && InGrid(rows, columns, a, b)
    ensures ShedGrid(h, rows, columns, t, x, y)[a][b] == h[a][b] + ShedDelta(t, a, b, x, y)
  {
    var b0 := Bump(h, rows, columns, x, y, -t);
    var b1 := Bump(b0, rows, columns, x - 1, y, 1);
    var b2 := Bump(b1, rows, columns, x + 1, y, 1);
    var b3 := Bump(b2, rows, columns, x, y - 1, 1);
    BumpCell(h, rows, columns, x, y, -t, a, b);
    BumpCell(b0, rows, columns, x - 1, y, 1, a, b);
    BumpCell(b1, rows, columns, x + 1, y, 1, a, b);
    BumpCell(b2, rows, columns, x, y - 1, 1, a, b);
    BumpCell(b3, rows, columns, x, y + 1, 1, a, b);
  }

  /** Shedding from an in-grid cell loses t minus the number of in-grid neighbours. */
  lemma ShedSum(h: Grid, rows: nat, columns: nat, t: int, x: nat, y: nat)
    requires IsGrid(h, rows, columns) && InGrid(rows, columns, x, y)
    ensures GridSum(ShedGrid(h, rows, columns, t, x, y)) == GridSum(h) - (t - InGridNeighbours(rows, columns, x, y))
  {
    var b0 := Bump(h, rows, columns, x, y, -t);
    var b1 := Bump(b0, rows, columns, x - 1, y, 1);
    var b2 := Bump(b1, rows, columns, x + 1, y, 1);
    var b3 := Bump(b2, rows, columns, x, y - 1, 1);
    BumpSum(h, rows, columns, x, y, -t);
    BumpSum(b0, rows, columns, x - 1, y, 1);
    BumpSum(b1, rows, columns, x + 1, y, 1);
    BumpSum(b2, rows, columns, x, y - 1, 1);
    BumpSum(b3, rows, columns, x, y + 1, 1);
  }

  /** The output buffer after visiting (x, y) is the buffer before it, shed from (x, y) if that cell topples. */
  lemma PartialGridStep(g: Grid, rows: nat, columns: nat, t: int, x: nat, y: nat)
    requires IsGrid(g, rows, columns) && InGrid(rows, columns, x, y)
    ensures GridSum(PartialGrid(g, rows, columns, t, x, y + 1))
         == GridSum(PartialGrid(g, rows, columns, t, x, y)) - CellLoss(g, rows, columns, t, x, y)
  {
    var h := PartialGrid(g, rows, columns, t, x, y);
    var h' := PartialGrid(g, rows, columns, t, x, y + 1);
    var s := if g[x][y] >= t then ShedGrid(h, rows, columns, t, x, y) else h;
    forall a, b | 0 <= a < rows && 0 <= b < columns
      ensures h'[a][b] == s[a][b]
    {
      PartialStepCell(g, rows, columns, t, a, b, x, y);
      ShedCell(h, rows, columns, t, x, y, a, b);
    }
    SameCells(h', s, rows, columns);
    if g[x][y] >= t {
      ShedSum(h, rows, columns, t, x, y);
    }
  }

  /** Cellwise effect of visiting (x, y), stated on neighbour positions. */
  lemma PartialStepCell(g: Grid, rows: nat, columns: nat, t: int, a: nat, b: nat, x: nat, y: nat)
    requires IsGrid(g, rows, columns) && InGrid(rows, columns, a, b) && InGrid(rows, columns, x, y)
    ensures Partial(g, rows, columns, t, a, b, x, y + 1)
         == Partial(g, rows, columns, t, a, b, x, y)
            + (if g[x][y] >= t then ShedDelta(t, a, b, x, y) else 0)
  {
    assert Before(a, b, x, y + 1) == (Before(a, b, x, y) || (a == x && b == y));
    assert Before(a - 1, b, x, y + 1) == (Before(a - 1, b, x, y) || (a - 1 == x && b == y));
    assert Before(a + 1, b, x, y + 1) == (Before(a + 1, b, x, y) || (a + 1 == x && b == y));
    assert Before(a, b - 1, x, y + 1) == (Before(a, b - 1, x, y) || (a == x && b - 1 == y));
    assert Before(a, b + 1, x, y + 1) == (Before(a, b + 1, x, y) || (a == x && b + 1 == y));
  }

  /** Before the first cell is processed the output buffer is the copy of g. */
  lemma PartialGridStart(g: Grid, rows: nat, columns: nat, t: int)
    requires IsGrid(g, rows, columns)
    ensures PartialGrid(g, rows, columns, t, 0, 0) == g
  {
    PartialStart(g, rows, columns, t);
    SameCells(PartialGrid(g, rows, columns, t, 0, 0), g, rows, columns);
  }

  /** The output buffer at the end of row x is the buffer at the start of row x + 1. */
  lemma PartialGridRowEnd(g: Grid, rows: nat, columns: nat, t: int, x: nat)
    requires IsGrid(g, rows, columns) && x < rows
    ensures PartialGrid(g, rows, columns, t, x, columns) == PartialGrid(g, rows, columns, t, x + 1, 0)
  {
    PartialRowEnd(g, rows, columns, t, x);
    SameCells(PartialGrid(g, rows, columns, t, x, columns), PartialGrid(g, rows, columns, t, x + 1, 0), rows, columns);
  }

  /** Grain total of the output buffer at every point of the pass. */
  lemma {:induction false} PartialSum(g: Grid, rows: nat, columns: nat, t: int, x: nat, y: nat)
    requires IsGrid(g, rows, columns) && x <= rows && y <= columns && (x == rows ==> y == 0)
    ensures GridSum(PartialGrid(g, rows, columns, t, x, y)) == GridSum(g) - LossBefore(g, rows, columns, t, x, y)
    decreases x, y, 1
  {
    if y == 0 {
      PartialSumRowStart(g, rows, columns, t, x);
    } else {
      PartialSum(g, rows, columns, t, x, y - 1);
      PartialSumStep(g, rows, columns, t, x, y - 1);
    }
  }

  /** Visiting (x, y) carries the grain total from (x, y) to (x, y + 1). */
  lemma PartialSumStep(g: Grid, rows: nat, columns: nat, t: int, x: nat, y: nat)
    requires IsGrid(g, rows, columns) && InGrid(rows, columns, x, y)
    requires GridSum(PartialGrid(g, rows, columns, t, x, y)) == GridSum(g) - LossBefore(g, rows, columns, t, x, y)
    ensures GridSum(PartialGrid(g, rows, columns, t, x, y + 1)) == GridSum(g) - LossBefore(g, rows, columns, t, x, y + 1)
  {
    PartialGridStep(g, rows, columns, t, x, y);
  }

  /** PartialSum at the start of row x. */
  lemma {:induction false} PartialSumRowStart(g: Grid, rows: nat, columns: nat, t: int, x: nat)
    requires IsGrid(g, rows, columns) && x <= rows
    ensures GridSum(PartialGrid(g, rows, columns, t, x, 0)) == GridSum(g) - LossBefore(g, rows, columns, t, x, 0)
    decreases x, 0, 0
  {
    if x == 0 {
      PartialGridStart(g, rows, columns, t);
    } else {
      PartialSum(g, rows, columns, t, x - 1, columns);
      PartialGridRowEnd(g, rows, columns, t, x - 1);
    }
  }

  /** One pass removes exactly Loss(g) grains from the grid. */
  lemma ToppleSum(g: Grid, rows: nat, columns: nat, t: int)
    requires IsGrid(g, rows, columns)
    ensures GridSum(TopplePass(g, rows, columns, t)) == GridSum(g) - Loss(g, rows, columns, t)
  {
    PartialSum(g, rows, columns, t, rows, 0);
    PartialEnd(g, rows, columns, t);
    SameCells(PartialGrid(g, rows, columns, t, rows, 0), TopplePass(g, rows, columns, t), rows, columns);
  }

  /** Shedding from two cells gives the same grid in either order: two sheds commute. */
  lemma ShedCommutes(h: Grid, rows: nat, columns: nat, t: int, p: int, q: int, x: int, y: int)
    requires IsGrid(h, rows, columns)
    ensures ShedGrid(ShedGrid(h, rows, columns, t, p, q), rows, columns, t, x, y)
         == ShedGrid(ShedGrid(h, rows, columns, t, x, y), rows, columns, t, p, q)
  {
    var l := ShedGrid(ShedGrid(h, rows, columns, t, p, q), rows, columns, t, x, y);
    var r := ShedGrid(ShedGrid(h, rows, columns, t, x, y), rows, columns, t, p, q);
    forall a, b | 0 <= a < rows && 0 <= b < columns
      ensures l[a][b] == r[a][b]
    {
      ShedCell(h, rows, columns, t, p, q, a, b);
      ShedCell(ShedGrid(h, rows, columns, t, p, q), rows, columns, t, x, y, a, b);
      ShedCell(h, rows, columns, t, x, y, a, b);
      ShedCell(ShedGrid(h, rows, columns, t, x, y), rows, columns, t, p, q, a, b);
    }
    SameCells(l, r, rows, columns);
  }

  lemma {:induction false} LossBeforeNonNegative(g: Grid, rows: nat, columns: nat, t: int, x: nat, y: nat)
    requires IsGrid(g, rows, columns) && x <= rows && y <= columns && (x == rows ==> y == 0) && t >= 4
    ensures LossBefore(g, rows, columns, t, x, y) >= 0
    decreases x, y
  {
    if y == 0 {
      if x > 0 {
        LossBeforeNonNegative(g, rows, columns, t, x - 1, columns);
      }
    } else {
      LossBeforeNonNegative(g, rows, columns, t, x, y - 1);
    }
  }

  /** With t >= 4 the loss up to (x, y) is at least the loss of any cell visited before it. */
  lemma {:induction false} LossBeforeCovers(g: Grid, rows: nat, columns: nat, t: int, x: nat, y: nat, p: nat, q: nat)
    requires IsGrid(g, rows, columns) && x <= rows && y <= columns && (x == rows ==> y == 0) && t >= 4
    requires InGrid(rows, columns, p, q) && Before(p, q, x, y)
    ensures LossBefore(g, rows, columns, t, x, y) >= CellLoss(g, rows, columns, t, p, q)
    decreases x, y
  {
    if y == 0 {
      LossBeforeCovers(g, rows, columns, t, x - 1, columns, p, q);
    } else if p == x && q == y - 1 {
      LossBeforeNonNegative(g, rows, columns, t, x, y - 1);
    } else {
      LossBeforeCovers(g, rows, columns, t, x, y - 1, p, q);
    }
  }

  /** With threshold 4, when only interior cells topple, no loss is accumulated. */
  lemma {:induction false} LossBeforeInterior(g: Grid, rows: nat, columns: nat, x: nat, y: nat)
    requires IsGrid(g, rows, columns) && x <= rows && y <= columns && (x == rows ==> y == 0)
    requires forall a, b :: 0 <= a < rows && 0 <= b < columns && g[a][b] >= 4 ==> 0 < a < rows - 1 && 0 < b < columns - 1
    ensures LossBefore(g, rows, columns, 4, x, y) == 0
    decreases x, y
  {
    if y == 0 {
      if x > 0 {
        LossBeforeInterior(g, rows, columns, x - 1, columns);
      }
    } else {
      LossBeforeInterior(g, rows, columns, x, y - 1);
    }
  }

  /** With threshold at least 4 a pass never adds grains. */
  lemma PassNeverGains(g: Grid, rows: nat, columns: nat, t: int)
    requires IsGrid(g, rows, columns) && t >= 4
    ensures GridSum(TopplePass(g, rows, columns, t)) <= GridSum(g)
  {
    ToppleSum(g, rows, columns, t);
    LossBeforeNonNegative(g, rows, columns, t, rows, 0);
  }

  /** With the default threshold 4, a pass in which only interior cells topple conserves every grain. */
  lemma InteriorPassConserves(g: Grid, rows: nat, columns: nat)
    requires IsGrid(g, rows, columns)
    requires forall a, b :: 0 <= a < rows && 0 <= b < columns && g[a][b] >= 4 ==> 0 < a < rows - 1 && 0 < b < columns - 1
    ensures GridSum(TopplePass(g, rows, columns, 4)) == GridSum(g)
  {
    ToppleSum(g, rows, columns, 4);
    LossBeforeInterior(g, rows, columns, rows, 0);
  }

  /**
   * A toppling border cell loses t minus its in-grid neighbour count: with
   * t = 4 and at least two rows and columns, one grain on an edge and two on
   * a corner.  Hence the total falls by at least that much.
   */
  lemma BorderPassLoses(g: Grid, rows: nat, columns: nat, t: int, p: nat, q: nat)
    requires IsGrid(g, rows, columns) && t >= 4 && InGrid(rows, columns, p, q) && g[p][q] >= t
    ensures GridSum(TopplePass(g, rows, columns, t)) <= GridSum(g) - (t - InGridNeighbours(rows, columns, p, q))
    ensures (p == 0 || p == rows - 1 || q == 0 || q == columns - 1) ==> GridSum(TopplePass(g, rows, columns, t)) < GridSum(g)
  {
    ToppleSum(g, rows, columns, t);
    LossBeforeCovers(g, rows, columns, t, rows, 0, p, q);
  }
}
