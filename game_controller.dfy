/**
 * The drop-position selector of the game controller.  In centre mode
 * (`drop_mode` = 1) the drop position is the middle of the COLS x ROWS grid;
 * in random mode it takes the random number as x on one clock and as y on
 * the next, so a fresh (x, y) pair is complete every second clock.
 */
module GameController {
  /** The selector's registers: the drop coordinates and whether the next random value goes to y. */
  datatype Selector = Selector(dropX: int, dropY: int, nextIsY: bool)

  /** After hardware reset: position (0, 0), the next random value goes to x. */
  const ResetSelector: Selector := Selector(0, 0, false)

  /** One clock with the given mode and random number. */
  function Step(s: Selector, cols: int, rows: int, centre: bool, rng: int): (n: Selector)
    ensures centre ==> n.dropX == cols / 2 && n.dropY == rows / 2
    ensures !centre && !s.nextIsY ==> n.dropX == rng && n.dropY == s.dropY && n.nextIsY
    ensures !centre && s.nextIsY ==> n.dropX == s.dropX && n.dropY == rng && !n.nextIsY
  {
    if centre then s.(dropX := cols / 2, dropY := rows / 2)
    else if s.nextIsY then s.(dropY := rng, nextIsY := false)
    else s.(dropX := rng, nextIsY := true)
  }

  /** The selector after clocking s through the random numbers in random mode. */
  function RunRandom(s: Selector, cols: int, rows: int, rngs: seq<int>): Selector
    decreases |rngs|
  {
    if rngs == [] then s else RunRandom(Step(s, cols, rows, false, rngs[0]), cols, rows, rngs[1..])
  }

  /**
   * In random mode, starting on the x phase, every pair of clocks delivers
   * one position: after an even number of random values the drop position
   * is the last pair, passed through unchanged, and the next value goes to x.
   */
  lemma {:induction false} RandomPairs(s: Selector, cols: int, rows: int, rngs: seq<int>)
    requires !s.nextIsY && |rngs| >= 2 && |rngs| % 2 == 0
    ensures RunRandom(s, cols, rows, rngs)
         == Selector(rngs[|rngs| - 2], rngs[|rngs| - 1], false)
    decreases |rngs|
  {
    var s2 := Step(Step(s, cols, rows, false, rngs[0]), cols, rows, false, rngs[1]);
    assert RunRandom(s, cols, rows, rngs) == RunRandom(s2, cols, rows, rngs[2..]) by {
      assert rngs[1..][0] == rngs[1] && rngs[1..][1..] == rngs[2..];
    }
    if |rngs| > 2 {
      RandomPairs(s2, cols, rows, rngs[2..]);
    }
  }

  class DropSelector {
    const cols: int
    const rows: int
    var dropX: int
    var dropY: int
    var nextIsY: bool

    function Registers(): Selector
      reads this
    {
      Selector(dropX, dropY, nextIsY)
    }

    /** Hardware reset of a selector for a cols x rows grid. */
    constructor(cols: int, rows: int)
      ensures this.cols == cols && this.rows == rows && Registers() == ResetSelector
    {
      this.cols, this.rows := cols, rows;
      dropX, dropY, nextIsY := 0, 0, false;
    }

    /** One rising clock edge; drop_mode 1 selects the centre. */
    method Clock(dropMode: int, rng: int)
      modifies this
      ensures Registers() == Step(old(Registers()), cols, rows, dropMode == 1, rng)
    {
      if dropMode == 1 {
        dropX := cols / 2;
        dropY := rows / 2;
      } else if nextIsY {
        dropY := rng;
        nextIsY := false;
      } else {
        dropX := rng;
        nextIsY := true;
      }
    }
  }
}
