/**
 * The Python reference sandpile that the grid hardware is checked against:
 * a `rows` x `columns` array of grain counters updated in place by drops and
 * replaced wholesale by each relaxation pass.
 */
module SandpileModel {
  import opened SandpileSpec

  /** Number of entries of ns equal to (a, b). */
  function Count(ns: seq<(int, int)>, a: int, b: int): nat {
    if ns == [] then 0 else Count(ns[..|ns| - 1], a, b) + (if ns[|ns| - 1] == (a, b) then 1 else 0)
  }

  /** The four orthogonal neighbours of (x, y), in the order the reference loop lists them. */
  function Neighbours(x: int, y: int): seq<(int, int)> {
    [(x - 1, y), (x + 1, y), (x, y - 1), (x, y + 1)]
  }

  /**
   * Processing cell (x, y) turns the output buffer at position (x, y) into the
   * buffer at (x, y + 1): nothing changes unless (x, y) topples, and then
   * (x, y) loses t and each listed neighbour gains one.
   */
  lemma PartialStep(g: Grid, rows: nat, columns: nat, t: int, a: nat, b: nat, x: nat, y: nat)
    requires IsGrid(g, rows, columns) && InGrid(rows, columns, a, b) && InGrid(rows, columns, x, y)
    ensures Partial(g, rows, columns, t, a, b, x, y + 1)
         == Partial(g, rows, columns, t, a, b, x, y)
            + (if g[x][y] >= t then Count(Neighbours(x, y), a, b) - (if a == x && b == y then t else 0) else 0)
  {
    PartialStepIndicators(g, rows, columns, t, a, b, x, y);
    if g[x][y] >= t {
      CountNeighbours(x, y, a, b);
    }
  }

  /** PartialStep with the neighbour count written out cell by cell. */
  lemma PartialStepIndicators(g: Grid, rows: nat, columns: nat, t: int, a: nat, b: nat, x: nat, y: nat)
    requires IsGrid(g, rows, columns) && InGrid(rows, columns, a, b) && InGrid(rows, columns, x, y)
    ensures Partial(g, rows, columns, t, a, b, x, y + 1)
         == Partial(g, rows, columns, t, a, b, x, y)
            + (if g[x][y] >= t then
                 (if a == x - 1 && b == y then 1 else 0) + (if a == x + 1 && b == y then 1 else 0)
                 + (if a == x && b == y - 1 then 1 else 0) + (if a == x && b == y + 1 then 1 else 0)
                 - (if a == x && b == y then t else 0)
               else 0)
  {
    assert Before(a, b, x, y + 1) == (Before(a, b, x, y) || (a == x && b == y));
    VisitedStep(g, rows, columns, t, a - 1, b, x, y);
    VisitedStep(g, rows, columns, t, a + 1, b, x, y);
    VisitedStep(g, rows, columns, t, a, b - 1, x, y);
    VisitedStep(g, rows, columns, t, a, b + 1, x, y);
  }

  /** Visiting (x, y) changes the visited-topple indicator of (x, y) alone. */
  lemma VisitedStep(g: Grid, rows: nat, columns: nat, t: int, p: int, q: int, x: nat, y: nat)
    requires IsGrid(g, rows, columns) && InGrid(rows, columns, x, y)
    ensures VisitedTopple(g, rows, columns, t, p, q, x, y + 1)
         == VisitedTopple(g, rows, columns, t, p, q, x, y) + (if p == x && q == y && g[x][y] >= t then 1 else 0)
  {
  }

  lemma CountNeighbours(x: int, y: int, a: int, b: int)
    ensures Count(Neighbours(x, y), a, b)
         == (if a == x - 1 && b == y then 1 else 0) + (if a == x + 1 && b == y then 1 else 0)
          + (if a == x && b == y - 1 then 1 else 0) + (if a == x && b == y + 1 then 1 else 0)
  {
    var ns := Neighbours(x, y);
    assert ns[..1][..0] == [];
    assert Count(ns[..1], a, b) == (if a == x - 1 && b == y then 1 else 0);
    assert ns[..2][..1] == ns[..1];
    assert Count(ns[..2], a, b) == Count(ns[..1], a, b) + (if a == x + 1 && b == y then 1 else 0);
    assert ns[..3][..2] == ns[..2];
    assert Count(ns[..3], a, b) == Count(ns[..2], a, b) + (if a == x && b == y - 1 then 1 else 0);
    assert ns[..3] == ns[..|ns| - 1];
  }

  class Sandpile {
    const rows: nat
    const columns: nat
    const threshold: int
    var grid: array2<int>

    ghost predicate Valid()
      reads this
    {
      grid.Length0 == rows && grid.Length1 == columns
    }

    /** The grid as a value, grid[x][y] for x < rows and y < columns. */
    ghost function Cells(): (g: Grid)
      reads this, grid
      requires Valid()
      ensures IsGrid(g, rows, columns)
      ensures forall x, y :: 0 <= x < rows && 0 <= y < columns ==> g[x][y] == grid[x, y]
    {
      var arr := grid;
      seq(rows, x requires 0 <= x < arr.Length0 reads arr => seq(columns, y requires 0 <= y < arr.Length1 reads arr => arr[x, y]))
    }

    /** A new pile of the given shape holds no grain anywhere. */
    constructor (rows: nat, columns: nat, threshold: int := 4)
      ensures Valid() && fresh(grid)
      ensures this.rows == rows && this.columns == columns && this.threshold == threshold
      ensures Cells() == Filled(rows, columns, 0)
    {
      this.rows := rows;
      this.columns := columns;
      this.threshold := threshold;
      grid := new int[rows, columns]((x, y) => 0);
      new;
      SameCells(Cells(), Filled(rows, columns, 0), rows, columns);
    }

    /**
     * Add one grain at (x, y) and report whether the pile will topple on the
     * next pass, that is whether any cell now holds at least the threshold.
     */
    method DropSand(x: nat, y: nat) returns (topple: bool)
      requires Valid() && x < rows && y < columns
      modifies grid
      ensures Valid()
      ensures Cells() == Drop(old(Cells()), rows, columns, x, y)
      ensures topple == AnyAtLeast(Cells(), rows, columns, threshold)
    {
      ghost var g := Cells();
      grid[x, y] := grid[x, y] + 1;
      SameCells(Cells(), Drop(g, rows, columns, x, y), rows, columns);

      topple := false;
      for i := 0 to rows
        invariant topple <==> exists a, b :: 0 <= a < i && 0 <= b < columns && grid[a, b] >= threshold
      {
        for j := 0 to columns
          invariant topple <==> exists a, b :: 0 <= a < rows && 0 <= b < columns && Before(a, b, i, j) && grid[a, b] >= threshold
        {
          if grid[i, j] >= threshold {
            topple := true;
          }
        }
      }
      assert topple ==> AnyAtLeast(Cells(), rows, columns, threshold);
    }

    /**
     * One relaxation pass: every cell of the pre-pass grid at or above the
     * threshold loses the threshold into a fresh copy and each of its
     * in-grid neighbours gains one; the copy then replaces the grid.
     */
    method ToppleCycle() returns (topple: bool)
      requires Valid()
      modifies this
      ensures Valid() && fresh(grid)
      ensures Cells() == TopplePass(old(Cells()), rows, columns, threshold)
      ensures topple == AnyAtLeast(old(Cells()), rows, columns, threshold)
    {
      ghost var g := Cells();
      var src := grid;
      var newGrid := new int[rows, columns]((a, b) reads src requires 0 <= a < src.Length0 && 0 <= b < src.Length1 => src[a, b]);
      assert forall a, b :: 0 <= a < rows && 0 <= b < columns ==> newGrid[a, b] == Partial(g, rows, columns, threshold, a, b, 0, 0) by {
        PartialStart(g, rows, columns, threshold);
      }
      assert !AnyBefore(g, rows, columns, threshold, 0, 0) by {
        AnyBeforeRowEnd(g, rows, columns, threshold, 0);
      }
      topple := false;
      for x := 0 to rows
        invariant grid == src && g == Cells()
        invariant forall a, b :: 0 <= a < rows && 0 <= b < columns ==> newGrid[a, b] == Partial(g, rows, columns, threshold, a, b, x, 0)
        invariant topple == AnyBefore(g, rows, columns, threshold, x, 0)
      {
        topple := ToppleRow(newGrid, x, topple, g);
      }
      assert topple == AnyAtLeast(g, rows, columns, threshold) by {
        AnyBeforeRowEnd(g, rows, columns, threshold, 0);
      }
      grid := newGrid;
      assert Cells() == TopplePass(g, rows, columns, threshold) by {
        PartialEnd(g, rows, columns, threshold);
        SameCells(Cells(), TopplePass(g, rows, columns, threshold), rows, columns);
      }
    }

    /**
     * The inner loop of a pass over row x: each cell of the grid at or above
     * the threshold raises the flag and sheds into the output buffer.
     */
    method ToppleRow(newGrid: array2<int>, x: nat, toppleIn: bool, ghost g: Grid) returns (topple: bool)
      requires Valid() && g == Cells() && x < rows
      requires newGrid.Length0 == rows && newGrid.Length1 == columns && newGrid != grid
      requires forall a, b :: 0 <= a < rows && 0 <= b < columns ==> newGrid[a, b] == Partial(g, rows, columns, threshold, a, b, x, 0)
      requires toppleIn == AnyBefore(g, rows, columns, threshold, x, 0)
      modifies newGrid
      ensures forall a, b :: 0 <= a < rows && 0 <= b < columns ==> newGrid[a, b] == Partial(g, rows, columns, threshold, a, b, x + 1, 0)
      ensures topple == AnyBefore(g, rows, columns, threshold, x + 1, 0)
    {
      topple := toppleIn;
      for y := 0 to columns
        invariant forall a, b :: 0 <= a < rows && 0 <= b < columns ==> newGrid[a, b] == Partial(g, rows, columns, threshold, a, b, x, y)
        invariant topple == AnyBefore(g, rows, columns, threshold, x, y)
      {
        AnyBeforeStep(g, rows, columns, threshold, x, y);
        if grid[x, y] >= threshold {
          topple := true;
          Shed(newGrid, x, y);
        }
        forall a, b | 0 <= a < rows && 0 <= b < columns
          ensures newGrid[a, b] == Partial(g, rows, columns, threshold, a, b, x, y + 1)
        {
          PartialStep(g, rows, columns, threshold, a, b, x, y);
        }
      }
      assert topple == AnyBefore(g, rows, columns, threshold, x + 1, 0) by {
        AnyBeforeRowEnd(g, rows, columns, threshold, x);
      }
      assert forall a, b :: 0 <= a < rows && 0 <= b < columns ==> newGrid[a, b] == Partial(g, rows, columns, threshold, a, b, x + 1, 0) by {
        PartialRowEnd(g, rows, columns, threshold, x);
      }
    }

    /**
     * The work of one toppling cell (x, y) on the output buffer: (x, y) loses
     * the threshold and each listed neighbour inside the grid gains one.
     */
    method Shed(out: array2<int>, x: nat, y: nat)
      requires out.Length0 == rows && out.Length1 == columns && x < rows && y < columns
      modifies out
      ensures forall a, b :: 0 <= a < rows && 0 <= b < columns ==>
        out[a, b] == old(out[a, b]) - (if a == x && b == y then threshold else 0) + Count(Neighbours(x, y), a, b)
    {
      out[x, y] := out[x, y] - threshold;
      var neighbors := Neighbours(x, y);
      for i := 0 to |neighbors|
        invariant forall a, b :: 0 <= a < rows && 0 <= b < columns ==>
          out[a, b] == old(out[a, b]) - (if a == x && b == y then threshold else 0) + Count(neighbors[..i], a, b)
      {
        var (nx, ny) := neighbors[i];
        if 0 <= nx < rows && 0 <= ny < columns {
          out[nx, ny] := out[nx, ny] + 1;
        }
        assert neighbors[..i + 1][..i] == neighbors[..i];
      }
      assert neighbors[..|neighbors|] == neighbors;
    }

    /** Set every cell of the grid to `value`. */
    method FillStack(value: int)
      requires Valid()
      modifies grid
      ensures Valid()
      ensures Cells() == Filled(rows, columns, value)
    {
      for x := 0 to rows
        invariant forall a, b :: 0 <= a < rows && 0 <= b < columns ==> grid[a, b] == if a < x then value else old(grid[a, b])
      {
        for y := 0 to columns
          invariant forall a, b :: 0 <= a < rows && 0 <= b < columns ==> grid[a, b] == if Before(a, b, x, y) then value else old(grid[a, b])
        {
          grid[x, y] := value;
        }
      }
      SameCells(Cells(), Filled(rows, columns, value), rows, columns);
    }
  }
}
