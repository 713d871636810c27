/**
 * Storage index of cell (x, y) in the tiled grid buffer.  The buffer is cut
 * into tiles of `rs` rows by `cs` columns; tiles are numbered row by row with
 * `tilesPerRow` tiles in each tile row, and the cells of a tile are stored
 * contiguously, column offset first:
 *
 *   index = ((y / rs) * tilesPerRow + x / cs) * rs * cs + x % cs + (y % rs) * cs
 *
 * The reference check computes tilesPerRow as resolution / cs (rounded down).
 */
module Tiling {
  import opened Arith

  /** Index of cell (x, y) in a buffer with the given tile layout. */
  function TiledIndex(x: int, y: int, tilesPerRow: int, rs: int, cs: int): int
    requires rs > 0 && cs > 0
  {
    ((y / rs) * tilesPerRow + x / cs) * (rs * cs) + x % cs + (y % rs) * cs
  }

  /** The column of the cell stored at index i. */
  function DecodeX(i: int, tilesPerRow: int, rs: int, cs: int): int
    requires rs > 0 && cs > 0 && tilesPerRow > 0
  {
    (i / (rs * cs)) % tilesPerRow * cs + (i % (rs * cs)) % cs
  }

  /** The row of the cell stored at index i. */
  function DecodeY(i: int, tilesPerRow: int, rs: int, cs: int): int
    requires rs > 0 && cs > 0 && tilesPerRow > 0
  {
    (i / (rs * cs)) / tilesPerRow * rs + (i % (rs * cs)) / cs
  }

  /** The offset of (x, y) inside its tile is below the tile size. */
  lemma OffsetInTile(x: nat, y: nat, rs: nat, cs: nat)
    requires rs > 0 && cs > 0
    ensures 0 <= x % cs + (y % rs) * cs < rs * cs
  {
    MixedBelow(y % rs, x % cs, cs, rs);
  }

  /**
   * A cell whose tile column fits in the tile row is recovered from its
   * index, so distinct such cells never share a storage slot.
   */
  lemma {:induction false} DecodeTiledIndex(x: nat, y: nat, tilesPerRow: nat, rs: nat, cs: nat)
    requires rs > 0 && cs > 0 && x / cs < tilesPerRow
    ensures DecodeX(TiledIndex(x, y, tilesPerRow, rs, cs), tilesPerRow, rs, cs) == x
    ensures DecodeY(TiledIndex(x, y, tilesPerRow, rs, cs), tilesPerRow, rs, cs) == y
  {
    var m := rs * cs;
    var tile := (y / rs) * tilesPerRow + x / cs;
    var offset := x % cs + (y % rs) * cs;
    var i := TiledIndex(x, y, tilesPerRow, rs, cs);
    OffsetInTile(x, y, rs, cs);
    DivMod(i, m, tile, offset);
    DivMod(offset, cs, y % rs, x % cs);
    DivMod(tile, tilesPerRow, y / rs, x / cs);
  }

  /** Distinct cells whose tile columns fit in the tile row have distinct indices. */
  lemma TiledIndexInjective(x: nat, y: nat, x': nat, y': nat, tilesPerRow: nat, rs: nat, cs: nat)
    requires rs > 0 && cs > 0 && x / cs < tilesPerRow && x' / cs < tilesPerRow
    ensures TiledIndex(x, y, tilesPerRow, rs, cs) == TiledIndex(x', y', tilesPerRow, rs, cs) <==> x == x' && y == y'
  {
    DecodeTiledIndex(x, y, tilesPerRow, rs, cs);
    DecodeTiledIndex(x', y', tilesPerRow, rs, cs);
  }

  /** Every index is the index of the cell it decodes to, and that cell's tile column fits. */
  lemma {:induction false} TiledIndexOfDecode(i: nat, tilesPerRow: nat, rs: nat, cs: nat)
    requires rs > 0 && cs > 0 && tilesPerRow > 0
    ensures DecodeX(i, tilesPerRow, rs, cs) / cs < tilesPerRow
    ensures TiledIndex(DecodeX(i, tilesPerRow, rs, cs), DecodeY(i, tilesPerRow, rs, cs), tilesPerRow, rs, cs) == i
  {
    var m := rs * cs;
    var tile, offset := i / m, i % m;
    var x, y := DecodeX(i, tilesPerRow, rs, cs), DecodeY(i, tilesPerRow, rs, cs);
    QuotientBelow(offset, cs, rs);
    DivMod(x, cs, tile % tilesPerRow, offset % cs);
    DivMod(y, rs, tile / tilesPerRow, offset / cs);
    assert tile / tilesPerRow * tilesPerRow + tile % tilesPerRow == tile;
  }

  // ---------------------------------------------------------------------------
  // The index as the reference check computes it: tilesPerRow = res / cs.
  // ---------------------------------------------------------------------------

  /** Index of (x, y) in a res x res grid, tiles per row rounded down. */
  function TileIndex(x: int, y: int, res: int, rs: int, cs: int): int
    requires rs > 0 && cs > 0
  {
    TiledIndex(x, y, res / cs, rs, cs)
  }

  /**
   * When res is a multiple of both tile sides, the cells of the res x res grid
   * occupy exactly the slots 0 .. res * res - 1, one cell per slot.
   */
  lemma {:induction false} TileIndexBijective(res: nat, rs: nat, cs: nat)
    requires rs > 0 && cs > 0 && res > 0 && res % rs == 0 && res % cs == 0
    ensures forall x: nat, y: nat :: x < res && y < res ==> TileIndex(x, y, res, rs, cs) < res * res
    ensures forall x: nat, y: nat, x': nat, y': nat ::
      (x < res && y < res && x' < res && y' < res && TileIndex(x, y, res, rs, cs) == TileIndex(x', y', res, rs, cs)) ==> x == x' && y == y'
    ensures forall i: nat :: i < res * res ==>
      var x, y := DecodeX(i, res / cs, rs, cs), DecodeY(i, res / cs, rs, cs);
      x < res && y < res && TileIndex(x, y, res, rs, cs) == i
  {
    assert res / cs > 0 by {
      DivMod(res, cs, res / cs, 0);
    }
    forall x: nat, y: nat | x < res && y < res
      ensures TileIndex(x, y, res, rs, cs) < res * res && x / cs < res / cs
    {
      TileIndexBelow(x, y, res, rs, cs);
    }
    forall x: nat, y: nat, x': nat, y': nat | x < res && y < res && x' < res && y' < res &&
      TileIndex(x, y, res, rs, cs) == TileIndex(x', y', res, rs, cs)
      ensures x == x' && y == y'
    {
      TiledIndexInjective(x, y, x', y', res / cs, rs, cs);
    }
    forall i: nat | i < res * res
      ensures DecodeX(i, res / cs, rs, cs) < res && DecodeY(i, res / cs, rs, cs) < res
      ensures TileIndex(DecodeX(i, res / cs, rs, cs), DecodeY(i, res / cs, rs, cs), res, rs, cs) == i
    {
      DecodeBelow(i, res, rs, cs);
      TiledIndexOfDecode(i, res / cs, rs, cs);
    }
  }

  /** Helper: the factors of a product of two products, regrouped. */
  lemma Regroup(h: int, p: int, rs: int, cs: int)
    ensures (h * p) * (rs * cs) == (h * rs) * (p * cs)
  {
  }

  /** In a grid whose side is a multiple of both tile sides, the tile number of a cell is below the tile count. */
  lemma TileBelow(x: nat, y: nat, res: nat, rs: nat, cs: nat)
    requires rs > 0 && cs > 0 && res % rs == 0 && res % cs == 0 && x < res && y < res
    ensures x / cs < res / cs
    ensures 0 <= (y / rs) * (res / cs) + x / cs < (res / rs) * (res / cs)
  {
    var p, h := res / cs, res / rs;
    ExactDiv(res, cs);
    ExactDiv(res, rs);
    QuotientBelow(x, cs, p);
    QuotientBelow(y, rs, h);
    MulMono(y / rs, 0, p);
    MixedBelow(y / rs, x / cs, p, h);
  }

  lemma TileIndexBelow(x: nat, y: nat, res: nat, rs: nat, cs: nat)
    requires rs > 0 && cs > 0 && res % rs == 0 && res % cs == 0 && x < res && y < res
    ensures x / cs < res / cs
    ensures TileIndex(x, y, res, rs, cs) < res * res
  {
    var p, h, m := res / cs, res / rs, rs * cs;
    var tile := (y / rs) * p + x / cs;
    var offset := x % cs + (y % rs) * cs;
    TileBelow(x, y, res, rs, cs);
    OffsetInTile(x, y, rs, cs);
    MixedBelow(tile, offset, m, h * p);
    assert (h * p) * m == res * res by {
      ExactDiv(res, cs);
      ExactDiv(res, rs);
      Regroup(h, p, rs, cs);
    }
  }

  lemma DecodeBelow(i: nat, res: nat, rs: nat, cs: nat)
    requires rs > 0 && cs > 0 && res % rs == 0 && res % cs == 0 && res > 0 && i < res * res
    ensures DecodeX(i, res / cs, rs, cs) < res && DecodeY(i, res / cs, rs, cs) < res
  {
    var p, h, m := res / cs, res / rs, rs * cs;
    ExactDiv(res, cs);
    ExactDiv(res, rs);
    var tile, offset := i / m, i % m;
    Regroup(h, p, rs, cs);
    QuotientBelow(i, m, h * p);
    QuotientBelow(tile, p, h);
    QuotientBelow(offset, cs, rs);
    MixedBelow(tile % p, offset % cs, cs, p);
    MixedBelow(tile / p, offset / cs, rs, h);
  }

  /**
   * With res not a multiple of cs the rounded-down tile count is too small:
   * for a 15 x 15 grid in 2 x 2 tiles the cells (14, 0) and (0, 2) share slot 28.
   */
  lemma TileIndexCollision()
    ensures TileIndex(14, 0, 15, 2, 2) == 28 && TileIndex(0, 2, 15, 2, 2) == 28
  {
  }

  // ---------------------------------------------------------------------------
  // Rounding the tile count up keeps every resolution collision-free.
  // ---------------------------------------------------------------------------

  /** Number of tiles needed to cover res columns. */
  function TilesPerRow(res: nat, cs: nat): (n: nat)
    requires cs > 0
    ensures n * cs >= res && (n > 0 ==> (n - 1) * cs < res)
  {
    (res + cs - 1) / cs
  }

  /** Index of (x, y) in a res x res grid, tiles per row rounded up. */
  function TileIndexCeil(x: int, y: int, res: nat, rs: int, cs: int): int
    requires rs > 0 && cs > 0
  {
    TiledIndex(x, y, TilesPerRow(res, cs), rs, cs)
  }

  /** For every resolution, distinct cells of the grid get distinct slots. */
  lemma TileIndexCeilInjective(x: nat, y: nat, x': nat, y': nat, res: nat, rs: nat, cs: nat)
    requires rs > 0 && cs > 0 && x < res && y < res && x' < res && y' < res
    ensures TileIndexCeil(x, y, res, rs, cs) == TileIndexCeil(x', y', res, rs, cs) <==> x == x' && y == y'
  {
    var n := TilesPerRow(res, cs);
    CeilCovers(x, res, cs);
    CeilCovers(x', res, cs);
    TiledIndexInjective(x, y, x', y', n, rs, cs);
  }

  lemma CeilCovers(x: nat, res: nat, cs: nat)
    requires cs > 0 && x < res
    ensures x / cs < TilesPerRow(res, cs)
  {
    QuotientBelow(x, cs, TilesPerRow(res, cs));
  }

  /** Where res is a multiple of cs both formulas agree. */
  lemma TileIndexCeilAgrees(x: nat, y: nat, res: nat, rs: nat, cs: nat)
    requires rs > 0 && cs > 0 && res % cs == 0
    ensures TileIndexCeil(x, y, res, rs, cs) == TileIndex(x, y, res, rs, cs)
  {
    DivMod(res + cs - 1, cs, res / cs, cs - 1);
  }
}
