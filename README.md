# Sandpile chip reference models in Dafny

This project models the executable reference logic of the sandpile chip's
cocotb test benches. The chip runs a Bak–Tang–Wiesenfeld sandpile on a grid
of grain counters and shows it over VGA. It is configured over SPI and fed
by a small true random number generator (TRNG). The hardware sources are not
part of this model. What is modelled is the Python golden models the tests
check the hardware against, and the register-level behaviour the tests
assert.

- `SandpileSpec`, `SandpileModel`, `SandpileSum`: the `Sandpile` class.
  - It is written out identically in four test files.
  - `drop_sand` adds one grain and reports whether some cell reached the threshold.
  - `topple_cycle` is one synchronous relaxation pass into a copy of the grid.
  - `fill_stack` sets every cell.
  - The class is over an `array2<int>`. Its methods are proved against pure functions on `seq<seq<int>>`.
  - Lemmas cover grain accounting, the commuting of two sheds, and rest states.
- `Tiling`: the storage index of cell (x, y) in the tiled double buffer, and its decoding.
- `Bits`, `Bitwise`, `Arith`: Python's integer bit operations (`>>`, `<<`, `&`, `|`, `^`) on non-negative integers, with their laws.
- `SpiFrame`: `built_packages` (address and 12-bit data into two bytes) and the MSB-first SPI send/receive loop.
- `ChipCommand`: the 16-bit chip command word, its serialisation, and the chip-ID read.
- `Trng`: the TRNG golden model.
  - `keccak_round` is theta, pi and chi on a 25-bit lane, each a bit-or accumulator loop.
  - `update_model` does the sensor mixing, the round and the scaling to `[0, MAX)`.
  - The reset state is 0x1234567.
- `Renderer`: the cell-value palette, the RGB nibble split and the captured grid image.
- `Controller`: the RESET / STOPPED / GAMING lifecycle state machine.
- `SpiController`: the SPI register file (reset defaults and address decode).
- `GameController`: the drop-position selector (centre mode, or x and y taken from the RNG on successive clocks).

Source paths below are relative to the repository root.

## Model

| member | source | states |
|---|---|---|
| SandpileModel.Sandpile.constructor | chips/10-sandpile/design_data/Chip/M5_Macro_Array_RAM/test/test_macro_sand_array.py:146-151 | a new pile is rows x columns, every cell 0, threshold 4 unless given, on a fresh array |
| SandpileModel.Sandpile.DropSand | chips/10-sandpile/design_data/Chip/M5_Macro_Array_RAM/test/test_macro_sand_array.py:153-165 | the grid afterwards is `Drop` of the old grid (cell (x, y) one higher, every other cell unchanged); the result is true iff some cell of the new grid is at or above threshold |
| SandpileModel.Sandpile.ToppleCycle | chips/10-sandpile/design_data/Chip/M5_Macro_Array_RAM/test/test_macro_sand_array.py:167-187 | the new grid is a fresh array equal to `TopplePass` of the old grid; the result is true iff some cell of the pre-pass grid was at or above threshold |
| SandpileModel.Sandpile.ToppleRow | chips/10-sandpile/design_data/Chip/M5_Macro_Array_RAM/test/test_macro_sand_array.py:172-184 | processing row x takes the output copy from the partial state before row x to the one before row x + 1, tests only the pre-pass grid, and accumulates the flag |
| SandpileModel.Sandpile.Shed | chips/10-sandpile/design_data/Chip/M5_Macro_Array_RAM/test/test_macro_sand_array.py:177-184 | a toppling cell loses the threshold and each in-grid orthogonal neighbour gains exactly 1; no other cell changes |
| SandpileModel.Sandpile.FillStack | chips/10-sandpile/design_data/Chip/M5_Macro_Array_RAM/test/test_macro_sand_array.py:189-192 | every cell of the grid holds the given value afterwards |
| SandpileModel.Sandpile.Cells | chips/10-sandpile/design_data/Chip/M5_Macro_Array_RAM_V2/test/test_macro_sand_array.py:137-142 | the array read as a rows x columns value with the same cell at every (x, y) |
| SandpileModel.PartialStep | chips/10-sandpile/design_data/Chip/M5_Macro_Array_RAM_V2/test/test_macro_sand_array.py:163-175 | visiting (x, y) changes cell (a, b) of the copy by the number of times (a, b) is listed among the neighbours, minus the threshold at (x, y) itself, and only if (x, y) topples in the pre-pass grid |
| SandpileModel.PartialStepIndicators | chips/10-sandpile/design_data/Chip/M5_Macro_Array_RAM_V2/test/test_macro_sand_array.py:163-175 | the same step with each neighbour's contribution written out as its own indicator |
| SandpileModel.VisitedStep | chips/10-sandpile/design_data/Chip/M5_Macro_Array_RAM_V2/test/test_macro_sand_array.py:163-165 | in the row-major visit order, visiting (x, y) marks (x, y) alone as processed |
| SandpileModel.CountNeighbours | chips/10-sandpile/design_data/Chip/M5_Macro_Array_RAM_V2/test/test_macro_sand_array.py:171 | the four listed neighbours are (x - 1, y), (x + 1, y), (x, y - 1), (x, y + 1), each listed once |
| SandpileSpec.Filled | chips/10-sandpile/design_data/Chip/M5_Macro_Array_RAM_V2/test/test_macro_sand_array.py:180-183 | a rows x columns grid whose every cell is the value |
| SandpileSpec.Drop | chips/10-sandpile/design_data/Chip/M5_Macro_Array_RAM_V2/test/test_macro_sand_array.py:146 | cell (x, y) is one higher and every other cell is unchanged |
| SandpileSpec.TopplePass | chips/10-sandpile/design_data/Chip/M5_Macro_Array_RAM_V2/test/test_macro_sand_array.py:158-178 | the pass result is a grid of the same shape, each cell computed from the pre-pass grid alone |
| SandpileSpec.InGridNeighbours | chips/10-sandpile/design_data/Chip/M5_Macro_Array_RAM_V2/test/test_macro_sand_array.py:171-175 | a cell has at most 4 in-grid neighbours, exactly 4 inside, exactly 2 at a corner |
| SandpileSpec.AnyBeforeStep | chips/10-sandpile/design_data/Chip/M5_Macro_Array_RAM_V2/test/test_macro_sand_array.py:149-156 | the running flag after visiting (x, y) is the flag before it or'ed with `grid[x][y] >= threshold` |
| SandpileSpec.AnyBeforeRowEnd | chips/10-sandpile/design_data/Chip/M5_Macro_Array_RAM_V2/test/test_macro_sand_array.py:149-156 | the flag starts false, carries over row ends, and after the last row means "some cell is at or above threshold" |
| SandpileSpec.PartialGrid | chips/10-sandpile/design_data/Chip/M5_Macro_Array_RAM_V2/test/test_macro_sand_array.py:160-175 | the output copy part-way through a pass, as a grid of the pile's shape |
| SandpileSpec.SameCells | chips/10-sandpile/design_data/Chip/M5_Macro_Array_RAM_V2/test/test_macro_sand_array.py:177 | two grids of one shape that agree on every cell are the same grid |
| SandpileSpec.PartialStart | chips/10-sandpile/design_data/Chip/M5_Macro_Array_RAM_V2/test/test_macro_sand_array.py:160 | before any cell is visited the output is the copy of the grid |
| SandpileSpec.PartialEnd | chips/10-sandpile/design_data/Chip/M5_Macro_Array_RAM_V2/test/test_macro_sand_array.py:177 | once every row is visited the output holds the pass result |
| SandpileSpec.PartialRowEnd | chips/10-sandpile/design_data/Chip/M5_Macro_Array_RAM_V2/test/test_macro_sand_array.py:163-164 | the end of row x is the start of row x + 1 |
| SandpileSpec.AtRest | chips/10-sandpile/design_data/Chip/M5_Macro_Array_RAM_V2/test/test_macro_sand_array_vga.py:160-180 | when no cell is at or above threshold the pass leaves the grid unchanged |
| SandpileSpec.EmptyPileAtRest | chips/10-sandpile/design_data/Chip/M5_Macro_Array_RAM_V2/test/test_macro_sand_array.py:229-230 | the all-zero grid expected after reset reports no topple and is unchanged by a pass |
| SandpileSpec.PassKeepsRange | chips/10-sandpile/design_data/Chip/M5_Macro_Array_RAM_V2/test/test_macro_sand_array_vga.py:160-180 | cells in 0..threshold+3 stay in 0..threshold+3 after a pass |
| SandpileSpec.PassKeepsNonNegative | chips/10-sandpile/design_data/Chip/M5_Macro_Array_RAM_V2/test/test_macro_sand_array_vga.py:160-180 | a pass never makes a non-negative grid negative |
| SandpileSpec.DropOnFullPile | chips/10-sandpile/design_data/Chip/M5_Macro_Array_RAM_V2/test/test_macro_sand_array_renderer.py:146-180 | on a pile filled with threshold - 1, one drop at (x, y) and one pass leave (x, y) at 0, its neighbours at threshold and every other cell at threshold - 1 |
| SandpileSum.RowSumUpdate | chips/10-sandpile/design_data/Chip/M5_Macro_Array_RAM_V2/test/test_macro_sand_array_vga.py:148 | changing one entry changes the row total by the difference |
| SandpileSum.GridSumUpdate | chips/10-sandpile/design_data/Chip/M5_Macro_Array_RAM_V2/test/test_macro_sand_array_vga.py:148 | replacing one row changes the grid total by the difference of the row totals |
| SandpileSum.Bump | chips/10-sandpile/design_data/Chip/M5_Macro_Array_RAM_V2/test/test_macro_sand_array_vga.py:176-177 | adding d to one position keeps the grid's shape |
| SandpileSum.BumpCell | chips/10-sandpile/design_data/Chip/M5_Macro_Array_RAM_V2/test/test_macro_sand_array_vga.py:176-177 | only the bumped cell changes, by d |
| SandpileSum.BumpSum | chips/10-sandpile/design_data/Chip/M5_Macro_Array_RAM_V2/test/test_macro_sand_array_vga.py:175-177 | the total rises by d for an in-grid position and is unchanged for an off-grid one (the grain is dropped) |
| SandpileSum.ShedGrid | chips/10-sandpile/design_data/Chip/M5_Macro_Array_RAM_V2/test/test_macro_sand_array_vga.py:166-177 | shedding from one cell keeps the grid's shape |
| SandpileSum.ShedCell | chips/10-sandpile/design_data/Chip/M5_Macro_Array_RAM_V2/test/test_macro_sand_array_vga.py:166-177 | shedding changes each cell by its neighbour indicator minus the threshold at the source |
| SandpileSum.ShedSum | chips/10-sandpile/design_data/Chip/M5_Macro_Array_RAM_V2/test/test_macro_sand_array_vga.py:166-177 | one topple lowers the total by threshold - k, with k its in-grid neighbours |
| SandpileSum.PartialGridStep | chips/10-sandpile/design_data/Chip/M5_Macro_Array_RAM_V2/test/test_macro_sand_array_vga.py:162-177 | visiting a cell lowers the output copy's total by that cell's loss |
| SandpileSum.PartialStepCell | chips/10-sandpile/design_data/Chip/M5_Macro_Array_RAM_V2/test/test_macro_sand_array_vga.py:162-177 | visiting a toppling cell is one shed applied to the output copy |
| SandpileSum.PartialGridStart | chips/10-sandpile/design_data/Chip/M5_Macro_Array_RAM_V2/test/test_macro_sand_array_vga.py:162 | the output copy starts equal to the grid |
| SandpileSum.PartialGridRowEnd | chips/10-sandpile/design_data/Chip/M5_Macro_Array_RAM_V2/test/test_macro_sand_array_vga.py:165-166 | the copy at a row end is the copy at the next row's start |
| SandpileSum.PartialSum | chips/10-sandpile/design_data/Chip/M5_Macro_Array_RAM_V2/test/test_macro_sand_array_vga.py:160-180 | at every point of the pass the copy's total is the grid total minus the losses of the cells visited so far |
| SandpileSum.PartialSumStep | chips/10-sandpile/design_data/Chip/M5_Macro_Array_RAM_V2/test/test_macro_sand_array_vga.py:166-177 | the running-total invariant survives one visited cell |
| SandpileSum.PartialSumRowStart | chips/10-sandpile/design_data/Chip/M5_Macro_Array_RAM_V2/test/test_macro_sand_array_vga.py:165 | the running-total invariant holds at the start of each row |
| SandpileSum.ToppleSum | chips/10-sandpile/design_data/Chip/M5_Macro_Array_RAM_V2/test/test_macro_sand_array_vga.py:160-180 | one pass removes exactly the grains that fall off the edge: the sum over toppling cells of threshold - k |
| SandpileSum.ShedCommutes | chips/10-sandpile/design_data/Chip/M5_Macro_Array_RAM_V2/test/test_macro_sand_array_vga.py:162-170 | sheds from two cells give the same grid in either order: two sheds commute |
| SandpileSum.LossBeforeNonNegative | chips/10-sandpile/design_data/Chip/M5_Macro_Array_RAM_V2/test/test_macro_sand_array_vga.py:173-177 | with threshold at least 4 the grains lost so far are never negative |
| SandpileSum.LossBeforeCovers | chips/10-sandpile/design_data/Chip/M5_Macro_Array_RAM_V2/test/test_macro_sand_array_vga.py:173-177 | the grains lost so far include the loss of every visited cell |
| SandpileSum.LossBeforeInterior | chips/10-sandpile/design_data/Chip/M5_Macro_Array_RAM_V2/test/test_macro_sand_array_vga.py:173-177 | with threshold 4 and only interior cells toppling, nothing is lost |
| SandpileSum.PassNeverGains | chips/10-sandpile/design_data/Chip/M5_Macro_Array_RAM_V2/test/test_macro_sand_array_vga.py:160-180 | with threshold at least 4 a pass never increases the grain total |
| SandpileSum.InteriorPassConserves | chips/10-sandpile/design_data/Chip/M5_Macro_Array_RAM_V2/test/test_macro_sand_array_vga.py:173-177 | with threshold 4 a pass where only interior cells topple keeps the total |
| SandpileSum.BorderPassLoses | chips/10-sandpile/design_data/Chip/M5_Macro_Array_RAM_V2/test/test_macro_sand_array_vga.py:173-177 | a toppling cell with k in-grid neighbours costs at least threshold - k grains; a toppling border cell always loses grains |
| Tiling.OffsetInTile | chips/10-sandpile/design_data/Chip/M5_Macro_Array_RAM/test/test_macro_sand_array.py:81 | the offset inside a tile lies in [0, rows x cols of a tile) |
| Tiling.DecodeTiledIndex | chips/10-sandpile/design_data/Chip/M5_Macro_Array_RAM/test/test_macro_sand_array.py:80-81 | decoding the index of (x, y) gives back x and y, for x inside the tile rows |
| Tiling.TiledIndexInjective | chips/10-sandpile/design_data/Chip/M5_Macro_Array_RAM/test/test_macro_sand_array.py:80-81 | two cells whose tile columns fit get the same index iff they are the same cell |
| Tiling.TiledIndexOfDecode | chips/10-sandpile/design_data/Chip/M5_Macro_Array_RAM/test/test_macro_sand_array.py:80-81 | every index is the index of the cell it decodes to |
| Tiling.TileIndexBijective | chips/10-sandpile/design_data/Chip/M5_Macro_Array_RAM/test/test_macro_sand_array.py:80-81 | when the resolution is a multiple of both tile sides, the index maps the res x res cells one-to-one onto [0, res²) |
| Tiling.TileBelow | chips/10-sandpile/design_data/Chip/M5_Macro_Array_RAM/test/test_macro_sand_array.py:80 | the tile number of an in-grid cell is below the number of tiles |
| Tiling.TileIndexBelow | chips/10-sandpile/design_data/Chip/M5_Macro_Array_RAM/test/test_macro_sand_array.py:80-81 | the index of an in-grid cell is below res² |
| Tiling.DecodeBelow | chips/10-sandpile/design_data/Chip/M5_Macro_Array_RAM/test/test_macro_sand_array.py:80-81 | every index below res² decodes to an in-grid cell |
| Tiling.TileIndexCollision | chips/10-sandpile/design_data/Chip/M5_Macro_Array_RAM/test/test_macro_sand_array.py:80 | as written, with resolution 15 and 2 x 2 tiles, cells (14, 0) and (0, 2) share index 28 |
| Tiling.TilesPerRow | chips/10-sandpile/design_data/Chip/M5_Macro_Array_RAM/test/test_macro_sand_array.py:80 | the rounded-up tile count covers the row and is the least that does |
| Tiling.TileIndexCeilInjective | chips/10-sandpile/design_data/Chip/M5_Macro_Array_RAM/test/test_macro_sand_array.py:80-81 | with the rounded-up tile count, two cells of the res x res grid share an index iff they are the same cell, for every resolution |
| Tiling.CeilCovers | chips/10-sandpile/design_data/Chip/M5_Macro_Array_RAM/test/test_macro_sand_array.py:80 | every in-grid column falls in a tile below the rounded-up count |
| Tiling.TileIndexCeilAgrees | chips/10-sandpile/design_data/Chip/M5_Macro_Array_RAM/test/test_macro_sand_array.py:80-81 | when the resolution is a multiple of the tile width the corrected index equals the index as written |
| SpiFrame.BuiltPackages | chips/10-sandpile/design_data/Chip/M9_SPI/test/test_spi.py:55-63 | fails iff the address or data is negative, address > 0xF or data > 0xFFF; otherwise both bytes fit in 8 bits, the first byte's high nibble is the address, and the low nibble with the second byte is the data |
| SpiFrame.Sent | chips/10-sandpile/design_data/Chip/M9_SPI/test/test_spi.py:22-24 | 8 bits per word sent |
| SpiFrame.SendRecvData | chips/10-sandpile/design_data/Chip/M9_SPI/test/test_spi.py:18-34 | the PICO bits are every word MSB first, and `out` is the shift-in of every sampled POCI level |
| SpiFrame.SendRecvWord | chips/10-sandpile/design_data/Chip/M9_SPI/test/test_spi.py:20-31 | one word adds its 8 bits, MSB first as `(data >> (7 - pos)) & 1`, and shifts 8 more samples into `out` |
| SpiFrame.FrameRoundTrip | chips/10-sandpile/design_data/Chip/M9_SPI/test/test_spi.py:70-84 | a receiver shifting in the 16 sent bits recovers the address in bits 15:12 and the data in bits 11:0 |
| ChipCommand.Command | chips/10-sandpile/design_data/Chip/tests/test_chip.py:83 | bits 15:12 are the address and bits 11:0 the data's low 12 bits; the word is below 2^16 iff the address is in 0..15 |
| ChipCommand.SendSpiCommand | chips/10-sandpile/design_data/Chip/tests/test_chip.py:72-107 | the 16 PICO bits are the command MSB first, bit k being `(command >> (15 - k)) & 1` |
| ChipCommand.CommandRoundTrip | chips/10-sandpile/design_data/Chip/tests/test_chip.py:83-91 | shifting the 16 bits back in gives the command, whose top nibble is the address and low 12 bits the data's, so excess data bits never corrupt the address |
| ChipCommand.ReadChipId | chips/10-sandpile/design_data/Chip/tests/test_chip.py:109-150 | sends command 0xA000 and returns the shift-in of the POCI samples at clocks 8..15, masked to 8 bits |
| ChipCommand.ChipIdReply | chips/10-sandpile/design_data/Chip/tests/test_chip.py:186-192 | a chip answering 0x78 MSB first on the reply byte is read as 0x78 |
| Bits.MsbBits | chips/10-sandpile/design_data/Chip/M9_SPI/test/test_spi.py:24 | the n bits of a word, most significant first |
| Bits.ShiftInMsbBits | chips/10-sandpile/design_data/Chip/M9_SPI/test/test_spi.py:22-31 | shifting in the n MSB-first bits of w gives w mod 2^n |
| Bits.MsbBitsRoundTrip | chips/10-sandpile/design_data/Chip/M9_SPI/test/test_spi.py:22-31 | for w below 2^n, `out = (out << 1) \| bit` over its MSB-first bits reconstructs w |
| Bits.ShiftInRange | chips/10-sandpile/design_data/Chip/tests/test_chip.py:137-139 | n shifted-in bits make a value below 2^n |
| Bits.ShiftInAppend | chips/10-sandpile/design_data/Chip/M9_SPI/test/test_spi.py:22-31 | shifting in two bit strings is the first value times 2^len(second) plus the second |
| Bits.BitsOfLevels | chips/10-sandpile/design_data/Chip/tests/test_chip.py:137-139 | sampled levels are bits |
| Bitwise.Xor | chips/10-sandpile/design_data/Chip/M7_Trng/test/test_trng.py:33 | on single bits `^` is 0 for equal and 1 for different bits |
| Bitwise.And | chips/10-sandpile/design_data/Chip/M7_Trng/test/test_trng.py:48 | on single bits `&` is 1 only for two ones |
| Bitwise.BitXor | chips/10-sandpile/design_data/Chip/M7_Trng/test/test_trng.py:54 | bit k of `a ^ b` is the xor of the bits k |
| Bitwise.XorBelow | chips/10-sandpile/design_data/Chip/M7_Trng/test/test_trng.py:54 | xor of two values below 2^n stays below 2^n |
| Bitwise.OrSetsBit | chips/10-sandpile/design_data/Chip/M7_Trng/test/test_trng.py:34 | or-ing `b << p` into a value whose bit p is clear adds b·2^p |
| Bitwise.WordBit | chips/10-sandpile/design_data/Chip/M7_Trng/test/test_trng.py:29 | `(w >> k) & 1` of a word built from bits is its k-th bit, 0 beyond |
| Bitwise.SetBit | chips/10-sandpile/design_data/Chip/M7_Trng/test/test_trng.py:34 | `acc \| (b << p)` on an accumulator of bits with bit p clear sets exactly bit p to b |
| Bitwise.BitsDetermine | chips/10-sandpile/design_data/Chip/M7_Trng/test/test_trng.py:51 | two values below 2^n with equal low n bits are equal |
| Bitwise.BitMod | chips/10-sandpile/design_data/Chip/M7_Trng/test/test_trng.py:51 | `a & (2^n - 1)` keeps the bits below n and clears the rest |
| Trng.ThetaBit | chips/10-sandpile/design_data/Chip/M7_Trng/test/test_trng.py:29-33 | theta bit i is `s[i] ^ s[(i+5)%25] ^ s[(i+20)%25]`, a single bit |
| Trng.Theta | chips/10-sandpile/design_data/Chip/M7_Trng/test/test_trng.py:27-34 | the accumulator loop yields the 25-bit word whose bit i is theta bit i |
| Trng.ThetaWordBit | chips/10-sandpile/design_data/Chip/M7_Trng/test/test_trng.py:27-34 | bit i of theta is theta bit i below 25 and 0 above |
| Trng.ThetaLinear | chips/10-sandpile/design_data/Chip/M7_Trng/test/test_trng.py:27-34 | theta is xor-linear: theta(s ^ t) = theta(s) ^ theta(t) |
| Trng.ThetaBitLinear | chips/10-sandpile/design_data/Chip/M7_Trng/test/test_trng.py:29-33 | each theta bit is xor-linear |
| Trng.PiDest | chips/10-sandpile/design_data/Chip/M7_Trng/test/test_trng.py:39 | bit i moves to position (7·i) mod 25, inside the lane |
| Trng.PiInverse | chips/10-sandpile/design_data/Chip/M7_Trng/test/test_trng.py:39 | i ↦ 18·i mod 25 undoes i ↦ 7·i mod 25 on 0..24, so the move is a permutation |
| Trng.PiStep | chips/10-sandpile/design_data/Chip/M7_Trng/test/test_trng.py:37-40 | each step writes a still-clear position of the accumulator |
| Trng.Pi | chips/10-sandpile/design_data/Chip/M7_Trng/test/test_trng.py:36-40 | the accumulator loop yields the word with bit (7·i) mod 25 equal to theta bit i |
| Trng.PiWordBit | chips/10-sandpile/design_data/Chip/M7_Trng/test/test_trng.py:36-40 | bit (7·i) mod 25 of pi is bit i of its input |
| Trng.PiKeepsPopcount | chips/10-sandpile/design_data/Chip/M7_Trng/test/test_trng.py:36-40 | the set bits of pi are the image of the input's set bits, and their number is the same |
| Trng.PiImageSize | chips/10-sandpile/design_data/Chip/M7_Trng/test/test_trng.py:39 | the move maps a set of lane positions onto a set of the same size |
| Trng.ChiBit | chips/10-sandpile/design_data/Chip/M7_Trng/test/test_trng.py:44-48 | chi bit i is `p[i] ^ ((p[(i+1)%25] ^ 1) & p[(i+2)%25])`, a single bit |
| Trng.Chi | chips/10-sandpile/design_data/Chip/M7_Trng/test/test_trng.py:42-49 | the accumulator loop yields the 25-bit word of chi bits |
| Trng.ChiWordBit | chips/10-sandpile/design_data/Chip/M7_Trng/test/test_trng.py:42-49 | bit i of chi is chi bit i below 25 and 0 above |
| Trng.KeccakRound | chips/10-sandpile/design_data/Chip/M7_Trng/test/test_trng.py:26-51 | the round is chi(pi(theta(s))) and is always below 2^25 |
| Trng.RoundReadsLow25 | chips/10-sandpile/design_data/Chip/M7_Trng/test/test_trng.py:26-51 | the round depends only on the 25 low bits of its input |
| Trng.MixBits | chips/10-sandpile/design_data/Chip/M7_Trng/test/test_trng.py:54-55 | the mixed state is below 2^25; its bits 0..9 are state xor sensor bits, bits 10..24 are the state's, higher bits are 0 |
| Trng.ScaleBelow | chips/10-sandpile/design_data/Chip/M7_Trng/test/test_trng.py:58-59 | `(state · MAX) >> 25` of a 25-bit state lies in [0, MAX) |
| Trng.TrngTester.constructor | chips/10-sandpile/design_data/Chip/M7_Trng/test/test_trng.py:15-17 | the model starts at 0x1234567 |
| Trng.TrngTester.Reset | chips/10-sandpile/design_data/Chip/M7_Trng/test/test_trng.py:19-24 | reset restores the model state to 0x1234567 |
| Trng.TrngTester.UpdateModel | chips/10-sandpile/design_data/Chip/M7_Trng/test/test_trng.py:53-59 | the new state is the round of the mixed state, it stays below 2^25, and the output is the scaled state, in [0, MAX) |
| Renderer.Palette | chips/10-sandpile/design_data/Chip/M5_Macro_Array_RAM_V2/test/test_macro_sand_array_renderer.py:113-127 | every colour is 12-bit; the colour is black iff the value is not in 1..4 (0 and every out-of-range value are black) |
| Renderer.SplitRgb | chips/10-sandpile/design_data/Chip/M5_Macro_Array_RAM_V2/test/test_macro_sand_array_renderer.py:129-131 | red, green and blue are each in [0, 15] |
| Renderer.JoinSplit | chips/10-sandpile/design_data/Chip/M5_Macro_Array_RAM_V2/test/test_macro_sand_array_renderer.py:129-131 | the nibbles of a 12-bit colour recombine to the colour |
| Renderer.SplitJoin | chips/10-sandpile/design_data/Chip/M5_Macro_Array_RAM_V2/test/test_macro_sand_array_renderer.py:129-131 | three nibbles joined and split come back unchanged |
| Renderer.ImagePixelColour | chips/10-sandpile/design_data/Chip/M5_Macro_Array_RAM_V2/test/test_macro_sand_array_renderer.py:105-133 | a grid pixel of the image recombines to the palette colour of the value read at raster x + 80 |
| Renderer.GetGridImage | chips/10-sandpile/design_data/Chip/M5_Macro_Array_RAM_V2/test/test_macro_sand_array_renderer.py:90-135 | a fresh 640 x 480 image: pixel (x, y) of the 240 x 240 square is the split palette colour of the value at raster (x + 80, y); every other pixel is black |
| Controller.Code | chips/10-sandpile/design_data/Chip/M1_Controller/test/test_controller.py:53-59 | the state register holds 0..2 |
| Controller.Next | chips/10-sandpile/design_data/Chip/M1_Controller/test/test_controller.py:56-139 | from GAMING or STOPPED a software reset gives RESET; the next state is GAMING iff start is high and either the game is in RESET or there is no software reset; it is STOPPED iff the game has left RESET and neither start nor a software reset is high |
| Controller.NoStartStaysReset | chips/10-sandpile/design_data/Chip/M1_Controller/test/test_controller.py:52-59 | a run from RESET that never raises start never leaves RESET |
| Controller.RunLast | chips/10-sandpile/design_data/Chip/M1_Controller/test/test_controller.py:56-139 | a run's state is the last clock's transition from the state before it |
| Controller.LifecycleTrace | chips/10-sandpile/design_data/Chip/M1_Controller/test/test_controller.py:56-139 | the states the tests assert, with the input levels each test inherits: RESET + start → 2, RESET + start + reset_software → 2, GAMING + reset → 0, GAMING − start → 1, STOPPED + start → 2, STOPPED + reset → 0 |
| Controller.LifecycleController.constructor | chips/10-sandpile/design_data/Chip/M1_Controller/test/test_controller.py:52-53 | hardware reset leaves the state in RESET |
| Controller.LifecycleController.Clock | chips/10-sandpile/design_data/Chip/M1_Controller/test/test_controller.py:85-139 | one clock moves the state by `Next`; a software reset from GAMING or STOPPED pulls reset_n low, and from RESET reset_n goes high exactly when start is high |
| SpiController.Write | chips/10-sandpile/design_data/Chip/tests/test_chip.py:199-327 | each address writes only its own register(s), and register values within their field widths stay within them |
| SpiController.DefaultsInRange | chips/10-sandpile/design_data/Chip/M2_SPI_Controller/test/test_spi_controller.py:51-61 | the reset defaults fit their field widths |
| SpiController.WriteReadBack | chips/10-sandpile/design_data/Chip/M2_SPI_Controller/test/test_spi_controller.py:97-115 | a grid size, drop mode, speed or seed that fits its field reads back as sent; bits 0 and 1 of address 1 read back as start and reset_software |
| SpiController.SoftwareResetCommand | chips/10-sandpile/design_data/Chip/M2_SPI_Controller/test/test_spi_controller.py:84-85 | address 1 with data 0b10 raises reset_software and keeps every other default |
| SpiController.SpiRegisterFile.constructor | chips/10-sandpile/design_data/Chip/M2_SPI_Controller/test/test_spi_controller.py:51-61 | after reset: start 0, reset_software 0, grid size 8, drop mode 0, speed 50, seed 0 |
| SpiController.SpiRegisterFile.Clock | chips/10-sandpile/design_data/Chip/M2_SPI_Controller/test/test_spi_controller.py:43-49 | a ready command applies `Write`, no command changes nothing, and the field widths are kept |
| GameController.Step | chips/10-sandpile/design_data/Chip/M10_Game_Controller/test/test_game_controller.py:49-89 | centre mode sets (COLS div 2, ROWS div 2); random mode stores the RNG value in x on one clock and in y on the next, leaving the other coordinate as it was |
| GameController.RandomPairs | chips/10-sandpile/design_data/Chip/M10_Game_Controller/test/test_game_controller.py:80-89 | in random mode, from the x phase, after an even number of RNG values the position is the last pair, passed through unchanged |
| GameController.DropSelector.constructor | chips/10-sandpile/design_data/Chip/M10_Game_Controller/test/test_game_controller.py:32-36 | hardware reset of the selector |
| GameController.DropSelector.Clock | chips/10-sandpile/design_data/Chip/M10_Game_Controller/test/test_game_controller.py:52-89 | one clock moves the registers by `Step`, drop_mode 1 meaning centre |

## Left out

- Simulator plumbing is not modelled. This covers clock generation, waiting for edges and timers, driving DUT signals, logging and `print`.
- Cycle latencies are not modelled. These are the 2- and 3-cycle read delays, the TRNG's two-cycle lag and the SRAM-clear wait. They are timing of hardware that is not part of this model.
- The VGA controller timing and the clock-divider period check are not modelled. The first is raster I/O; the second is a wall-clock measurement with a floating-point tolerance.
- The TRNG statistics and plots (mean, deviation, chi-squared) are not modelled. They are floating-point.
- Reading the hardware is modelled as parameters. This covers the sensor data in `UpdateModel`, `MAX` as its `max` argument, the sampled POCI levels in the SPI and chip-ID reads, and the renderer's `pixel_data` as the function `pixelData`.
- Saving the captured image as a PNG is left out.
- Grid cells are unbounded integers. numpy's fixed-width `int` wrap-around is not modelled; it cannot happen at the grain counts the tests use.
- `Controller.Next`: the tests never clock RESET with start low. The model keeps RESET in that case, whatever `reset_software` is.
- `Controller.LifecycleController.Clock`: reset_n is asserted low only in RESET. The tests observe it only in RESET.
- `Controller.Next`: the tests run in one simulation, so `reset_software` set high by `test_reset_state` is still high when `test_gaming_state` raises start from RESET (`test_controller.py` lines 62 and 79-82). The model reads that as `start` winning in RESET and the software reset acting only in GAMING and STOPPED.
- `SandpileModel.Sandpile.DropSand` requires an in-grid cell. An out-of-range drop, which raises IndexError in Python or wraps round for a negative numpy index, is not modelled; every caller draws in-range coordinates.
- `SandpileSum.ShedCommutes` proves that two sheds commute. It does not prove that folding the sheds over any other order of the toppling cells gives `TopplePass`.
- The controller's parameter pass-through test (`test_controller.py` lines 155-164) reads back its own inputs. It is not modelled. The unasserted `game_active_o`, `resolution_o` and `speed_o` outputs are not modelled either.
- `SpiController.Write` field widths come from the register map documented in `tests/test_chip.py`: grid size 9 bits, drop mode 1 bit, speed 12 bits, seed 10 bits. Address 1 writes both start (bit 0) and reset_software (bit 1). Other addresses change nothing. These are the modelled reading of a register file whose source is not shown.
- `GameController.Step`: the test computes the centre with Python's true division (`COLS / 2`, `ROWS / 2`, `test_game_controller.py` lines 49-50). The model floors (`cols / 2` on integers). The two agree for even sizes. For an odd size the test expects a half-integer, which no integer register can equal, so its assertion cannot hold there.
- `GameController.DropSelector.constructor`: the reset position (0, 0) and the x phase are assumptions. The tests only show that the first random value after reset goes to x. The drop coordinates are not truncated to a register width; the tests only use values below 480.
- The TRNG's `MAX` is a non-negative integer. A negative `MAX` is not modelled.

## Findings

| source | as written | input that shows it | evidently intended | confidence | as-written member | corrected member |
|---|---|---|---|---|---|---|
| chips/10-sandpile/design_data/Chip/M5_Macro_Array_RAM/test/test_macro_sand_array.py:80 | tiles per row is `int(resolution / COLS_SMALL)`, rounded down | resolution 15 with 2 x 2 tiles: cells (14, 0) and (0, 2) both get index 28 | tiles per row rounded up, so that each cell has its own index | low, not executed (the tests use resolutions that are multiples of the tile side, where both agree) | Tiling.TileIndexCollision | Tiling.TileIndexCeilInjective |
