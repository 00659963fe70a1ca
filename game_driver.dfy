/**
 * The SnakeGame object that owns a game state and forwards input to it.
 * Its periodic tick task is not modelled; `Tick` is the work one tick does.
 */
module GameDriver {
  import opened Grid
  import opened Lcg
  import opened GameSpec
  import opened GameState

  class SnakeGame {
    var state: SnakeGameState
    var isRunning: bool

    ghost predicate Valid()
      reads this, state, state.rng
    {
      state.Valid()
    }

    /**
     * The seed is a parameter: the Swift code falls back to a clock reading when
     * none is given. Its default board of 20 x 20 is not modelled; rows and cols
     * are always passed.
     */
    constructor (rows: int, cols: int, seed: UInt64)
      requires rows >= 1 && cols >= 4
      ensures Valid() && fresh(state) && fresh(state.rng)
      ensures state.View() == Initial(rows, cols, seed)
      ensures !isRunning
    {
      state := new SnakeGameState(rows, cols, seed);
      isRunning := false;
    }

    /** The body of one tick of the loop: the game steps only while the driver is running. */
    method Tick()
      requires Valid()
      modifies state, state.rng
      ensures Valid() && state == old(state) && state.rng == old(state.rng)
      ensures isRunning == old(isRunning)
      ensures state.View() == if isRunning then GameSpec.Step(old(state.View())) else old(state.View())
    {
      if isRunning {
        state.Step();
      }
    }

    /** Starts a new game on the same board with `newSeed` and marks the driver running. */
    method Restart(newSeed: UInt64)
      requires Valid()
      modifies this, state
      ensures Valid() && state == old(state) && fresh(state.rng)
      ensures state.View() == Initial(old(state.rows), old(state.cols), newSeed)
      ensures isRunning
    {
      state.Reset(newSeed);
      isRunning := true;
    }

    method TogglePause()
      requires Valid()
      modifies state
      ensures Valid() && state == old(state) && state.rng == old(state.rng)
      ensures isRunning == old(isRunning)
      ensures state.View() == GameSpec.TogglePause(old(state.View()))
    {
      state.TogglePause();
    }

    method SetDirection(direction: Direction)
      requires Valid()
      modifies state
      ensures Valid() && state == old(state) && state.rng == old(state.rng)
      ensures isRunning == old(isRunning)
      ensures state.View() == GameSpec.QueueDirection(old(state.View()), direction)
    {
      state.QueueDirection(direction);
    }
  }
}
