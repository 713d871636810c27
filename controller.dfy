/**
 * The game lifecycle controller: one state register stepped on every clock
 * from the `start` and `reset_software` inputs, with the active-low grid
 * reset `reset_n` held low while the game is in RESET.  The test bench runs
 * its tests in one simulation, so an input driven by one test keeps its
 * level in the next; read that way, `start` leaves RESET even while
 * `reset_software` is still high, and the software reset acts only on a
 * running or stopped game.
 */
module Controller {
  datatype State = Reset | Stopped | Gaming

  /** The value of the state register: RESET = 0, STOPPED = 1, GAMING = 2. */
  function Code(s: State): (c: int)
    ensures 0 <= c <= 2
  {
    match s
    case Reset => 0
    case Stopped => 1
    case Gaming => 2
  }

  /**
   * One clock: in RESET, `start` high enters GAMING and otherwise the game
   * stays in RESET.  From GAMING or STOPPED a software reset enters RESET;
   * else `start` high enters (or keeps) GAMING, and `start` low gives STOPPED.
   */
  function Next(s: State, start: bool, resetSoftware: bool): (n: State)
    ensures resetSoftware && s != Reset ==> n == Reset
    ensures n == Gaming <==> start && (s == Reset || !resetSoftware)
    ensures n == Stopped <==> s != Reset && !resetSoftware && !start
  {
    if s == Reset then (if start then Gaming else Reset)
    else if resetSoftware then Reset
    else if start then Gaming
    else Stopped
  }

  /** The controller's inputs on one clock. */
  datatype Inputs = Inputs(start: bool, resetSoftware: bool)

  /** The state after clocking s through the inputs, first to last. */
  function Run(s: State, inputs: seq<Inputs>): State
    decreases |inputs|
  {
    if inputs == [] then s
    else Run(Next(s, inputs[0].start, inputs[0].resetSoftware), inputs[1..])
  }

  /**
   * Until `start` is raised the game cannot leave RESET: the grid is held
   * in reset whatever `reset_software` does.
   */
  lemma {:induction false} NoStartStaysReset(inputs: seq<Inputs>)
    requires forall k :: 0 <= k < |inputs| ==> !inputs[k].start
    ensures Run(Reset, inputs) == Reset
    decreases |inputs|
  {
    if inputs != [] {
      NoStartStaysReset(inputs[1..]);
    }
  }

  /**
   * A run is its prefix followed by one more clock: the last state is the
   * transition of the last inputs from the state the prefix reaches.
   */
  lemma {:induction false} RunLast(s: State, inputs: seq<Inputs>)
    requires inputs != []
    ensures Run(s, inputs) == Next(Run(s, inputs[..|inputs| - 1]), inputs[|inputs| - 1].start, inputs[|inputs| - 1].resetSoftware)
    decreases |inputs|
  {
    if |inputs| > 1 {
      assert inputs[1..][..|inputs[1..]| - 1] == inputs[..|inputs| - 1][1..];
      RunLast(Next(s, inputs[0].start, inputs[0].resetSoftware), inputs[1..]);
    }
  }

  /**
   * The transitions the state-transition tests observe after hardware reset,
   * with the input levels each test inherits from the one before it.
   */
  lemma LifecycleTrace()
    ensures Code(Next(Reset, true, false)) == 2
    ensures Code(Next(Reset, true, true)) == 2
    ensures Code(Next(Gaming, true, true)) == 0
    ensures Code(Next(Gaming, false, false)) == 1
    ensures Code(Next(Stopped, true, false)) == 2
    ensures Code(Next(Stopped, false, true)) == 0
  {
  }

  class LifecycleController {
    var state: State

    /** Hardware reset: the game starts in RESET. */
    constructor()
      ensures state == Reset
    {
      state := Reset;
    }

    /** The active-low reset of the sand grid, asserted while in RESET. */
    function ResetN(): bool
      reads this
    {
      state != Reset
    }

    /** One rising clock edge with the given inputs. */
    method Clock(start: bool, resetSoftware: bool)
      modifies this
      ensures state == Next(old(state), start, resetSoftware)
      ensures resetSoftware && old(state) != Reset ==> !ResetN()
      ensures old(state) == Reset ==> (ResetN() <==> start)
    {
      if state == Reset {
        if start {
          state := Gaming;
        }
      } else if resetSoftware {
        state := Reset;
      } else if start {
        state := Gaming;
      } else {
        state := Stopped;
      }
    }
  }
}
