# Classic Snake game state machine, in Dafny

This project models the game logic of the Classic Snake game (`SnakeGame.swift`)
and proves what it promises. A snake of grid cells moves on a `rows x cols`
board, one cell per tick. It turns on request, but never straight back. It grows
by one cell and scores one point per food eaten. The game ends when the snake
hits a wall or itself. Food is placed by rejection sampling from a 64-bit
linear-congruential generator, so a game is fully determined by its seed and
its inputs.

Modules, in dependency order:

- `Grid` (`grid.dfy`): `GridPoint`, `Direction`, the unit `Vector` of each
  direction, `IsOpposite`, and `Translate` (one step from a cell).
- `Board` (`board.dfy`): board bounds and the row-major cell numbering that food
  placement draws from (`CellAt(i) = (i % cols, i / cols)`). It also holds the
  pigeonhole facts: a snake shorter than the board leaves a numbered cell free,
  and a snake with no repeated cells never outgrows the board.
- `Lcg` (`lcg.dfy`): the generator. `NextState` is
  `state * 6364136223846793005 + 1` modulo 2^64, and a zero seed starts at
  `0x4d595df4d0f33173`. `PrevState` runs it backwards, and the two are proved
  mutual inverses. The class `Lcrng` has the mutating `Next` and `NextInt`.
- `GameSpec` (`game_spec.dfy`): the game state as a value (`Game`) and its
  transitions as functions (`Initial`, `QueueDirection`, `TogglePause`, `Step`,
  `SpawnFood`). It also defines the invariant `Inv` and the lemmas about them,
  including the lemmas over any sequence of inputs (`Run`).
- `GameState` (`game_state.dfy`): the class `SnakeGameState`. Its fields are
  updated in place by `Reset`, `QueueDirection`, `TogglePause`, `Step` and
  `SpawnFood`. The constructor, `Reset`, `QueueDirection`, `TogglePause` and
  `Step` are proved to perform the `GameSpec` transition of the same name on
  `View()` and to keep `Valid()`. `SpawnFood` runs in the middle of a step,
  where `Valid()` need not hold; it is proved to give the food and the
  generator state that `GameSpec.SpawnFood` gives.
- `GameDriver` (`game_driver.dfy`): the `SnakeGame` object. It forwards input to
  the state. It also holds the running flag that gates a tick.

The invariant `Inv`, kept by every transition, says:
- every snake cell is on the board;
- the snake has no repeated cell;
- the food is on the board;
- while the snake is shorter than the board, the food is not on the snake;
- a pending direction never reverses the current one;
- the snake's length is always `3 + score`.

Two behaviours of the code are easy to miss:
- Food is placed from `next() % (rows*cols)`. This is not a uniform draw.
- Once the snake fills the board, the food is put at (0,0) without checking
  whether that cell is free. So "the food is never on the snake" holds only
  while the snake is shorter than the board. `FullBoardEndsGame` shows that the
  next running step then ends the game.

## Model

| member | source | states |
|---|---|---|
| `Grid.IsOpposite` | ClassicSnakeGameByCodex/ClassicSnakeGameByCodex/SnakeGame.swift:31-38 | true for exactly the pairs (up, down), (down, up), (left, right), (right, left); its contract is stated by `Grid.IsOppositeIsReverse`, `Grid.IsOppositeSymmetric`, `Grid.IsOppositeIrreflexive` and `Grid.OppositeVectorsCancel` |
| `Grid.Vector` | ClassicSnakeGameByCodex/ClassicSnakeGameByCodex/SnakeGame.swift:22-29 | each direction moves exactly one cell along exactly one axis; up and down keep x, right and down add one |
| `Grid.Translate` | ClassicSnakeGameByCodex/ClassicSnakeGameByCodex/SnakeGame.swift:114-116 | the new head is a different cell at distance exactly one from the old head |
| `Grid.IsOppositeIsReverse` | ClassicSnakeGameByCodex/ClassicSnakeGameByCodex/SnakeGame.swift:31-38 | `IsOpposite(d, e)` holds exactly when `e` is the reversal of `d`, so each direction has exactly one opposite |
| `Grid.IsOppositeSymmetric` | ClassicSnakeGameByCodex/ClassicSnakeGameByCodex/SnakeGame.swift:31-38 | being opposite is symmetric |
| `Grid.IsOppositeIrreflexive` | ClassicSnakeGameByCodex/ClassicSnakeGameByCodex/SnakeGame.swift:31-38 | no direction is opposite to itself |
| `Grid.OppositeVectorsCancel` | ClassicSnakeGameByCodex/ClassicSnakeGameByCodex/SnakeGame.swift:22-38 | two directions are opposite if and only if their vectors sum to (0,0) |
| `Grid.TranslateBack` | ClassicSnakeGameByCodex/ClassicSnakeGameByCodex/SnakeGame.swift:22-38 | a step followed by a step in the opposite direction returns to the start cell |
| `Board.InBounds` | ClassicSnakeGameByCodex/ClassicSnakeGameByCodex/SnakeGame.swift:118 | a cell is on the board when 0 <= x < cols and 0 <= y < rows, the negation of the wall test; used by `Board.CellAtInBounds`, `Board.FitsBoard` and `GameSpec.StepCollision` |
| `Board.CellAt` | ClassicSnakeGameByCodex/ClassicSnakeGameByCodex/SnakeGame.swift:147 | a draw `index` becomes the cell `(index % cols, index / cols)`; its contract is stated by `Board.CellAtInBounds`, `Board.CellAtIndexOf` and `Board.CellAtInjective` |
| `Board.CellAtInBounds` | ClassicSnakeGameByCodex/ClassicSnakeGameByCodex/SnakeGame.swift:146-147 | a draw below rows*cols turned into `(index % cols, index / cols)` is a cell on the board |
| `Board.CellAtIndexOf` | ClassicSnakeGameByCodex/ClassicSnakeGameByCodex/SnakeGame.swift:147 | every board cell is `CellAt` of its row-major number, and every cell has a number below rows*cols |
| `Board.CellAtInjective` | ClassicSnakeGameByCodex/ClassicSnakeGameByCodex/SnakeGame.swift:147 | distinct draws below the board size give distinct cells |
| `Board.FreeCellExists` | ClassicSnakeGameByCodex/ClassicSnakeGameByCodex/SnakeGame.swift:139-148 | if the snake is shorter than rows*cols, some cell number below rows*cols names a cell off the snake, so the sampling loop has something to find |
| `Board.FitsBoard` | ClassicSnakeGameByCodex/ClassicSnakeGameByCodex/SnakeGame.swift:139-142 | a snake on the board with no repeated cells has at most rows*cols cells, and at exactly rows*cols it covers every cell |
| `Lcg.SeedState` | ClassicSnakeGameByCodex/ClassicSnakeGameByCodex/SnakeGame.swift:44-46 | seed 0 starts at 0x4d595df4d0f33173, any other seed starts at itself; the start state is never 0 |
| `Lcg.NextState` | ClassicSnakeGameByCodex/ClassicSnakeGameByCodex/SnakeGame.swift:49 | the wrapping step `state * 6364136223846793005 + 1 mod 2^64`; its contract is stated by `Lcg.PrevAfterNext`, `Lcg.NextAfterPrev` and `Lcg.NextStateInjective` |
| `Lcg.PrevAfterNext` | ClassicSnakeGameByCodex/ClassicSnakeGameByCodex/SnakeGame.swift:48-51 | the wrapping step `state * 6364136223846793005 + 1 mod 2^64` is undone by `PrevState` |
| `Lcg.NextAfterPrev` | ClassicSnakeGameByCodex/ClassicSnakeGameByCodex/SnakeGame.swift:48-51 | every 64-bit state is the successor of `PrevState` of itself, so the step is onto |
| `Lcg.NextStateInjective` | ClassicSnakeGameByCodex/ClassicSnakeGameByCodex/SnakeGame.swift:48-51 | two different states never step to the same state |
| `Lcg.Lcrng.constructor` | ClassicSnakeGameByCodex/ClassicSnakeGameByCodex/SnakeGame.swift:44-46 | a new generator holds `SeedState(seed)` |
| `Lcg.Lcrng.Next` | ClassicSnakeGameByCodex/ClassicSnakeGameByCodex/SnakeGame.swift:48-51 | the state becomes `NextState` of the old state and that new state is returned |
| `Lcg.Lcrng.NextInt` | ClassicSnakeGameByCodex/ClassicSnakeGameByCodex/SnakeGame.swift:53-55 | for a positive bound: advances the state once and returns the new state modulo the bound, a value in [0, bound) |
| `GameSpec.Sample` | ClassicSnakeGameByCodex/ClassicSnakeGameByCodex/SnakeGame.swift:144-148 | rejection sampling always yields a cell that is on the board and not on the snake |
| `GameSpec.SpawnFood` | ClassicSnakeGameByCodex/ClassicSnakeGameByCodex/SnakeGame.swift:138-151 | the food is always on the board; off the snake while the snake is shorter than the board; (0,0) with the generator untouched otherwise |
| `GameSpec.Run` | ClassicSnakeGameByCodex/ClassicSnakeGameByCodex/SnakeGame.swift:97-136 | any sequence of direction requests, pause toggles and steps from a valid state ends in a valid state |
| `GameSpec.InitialSnake` | ClassicSnakeGameByCodex/ClassicSnakeGameByCodex/SnakeGame.swift:76-82 | the three cells `(cols/2, rows/2)`, `(cols/2-1, rows/2)`, `(cols/2-2, rows/2)`, head first; stated by `GameSpec.InitialIsValid` |
| `GameSpec.Initial` | ClassicSnakeGameByCodex/ClassicSnakeGameByCodex/SnakeGame.swift:72-91 | a new game: that snake heading right, score 0, no flag set, nothing pending, food from `SpawnFood` on the seeded generator; stated by `GameSpec.InitialIsValid` |
| `GameSpec.InitialIsValid` | ClassicSnakeGameByCodex/ClassicSnakeGameByCodex/SnakeGame.swift:72-91 | a new game is valid; its snake is `[(cols/2, rows/2), (cols/2-1, rows/2), (cols/2-2, rows/2)]` heading right; score 0, no flag set, nothing pending; the food is off the snake |
| `GameSpec.QueueDirection` | ClassicSnakeGameByCodex/ClassicSnakeGameByCodex/SnakeGame.swift:97-100 | a reversal of the current direction changes nothing, any other request only sets the pending direction; stated by `GameSpec.QueueDirectionPreservesInv`, `GameSpec.LastRequestWins` and `GameSpec.ReversalIgnored` |
| `GameSpec.QueueDirectionPreservesInv` | ClassicSnakeGameByCodex/ClassicSnakeGameByCodex/SnakeGame.swift:97-100 | a direction request keeps the invariant; in particular the pending direction never reverses the current one |
| `GameSpec.LastRequestWins` | ClassicSnakeGameByCodex/ClassicSnakeGameByCodex/SnakeGame.swift:97-100 | an accepted request overwrites whatever was requested before it |
| `GameSpec.ReversalIgnored` | ClassicSnakeGameByCodex/ClassicSnakeGameByCodex/SnakeGame.swift:97-111 | a request opposite the current direction never becomes the direction at the next step; with nothing pending before, the direction stays as it was |
| `GameSpec.TogglePause` | ClassicSnakeGameByCodex/ClassicSnakeGameByCodex/SnakeGame.swift:102-104 | flips the pause flag and nothing else; with `GameSpec.StepWhenStopped` a paused game does not move |
| `GameSpec.CommittedDirection` | ClassicSnakeGameByCodex/ClassicSnakeGameByCodex/SnakeGame.swift:109-111 | the pending direction when there is one that does not reverse the current direction, the current direction otherwise; stated by `GameSpec.StepCommitsDirection` and `GameSpec.ReversalIgnored` |
| `GameSpec.Step` | ClassicSnakeGameByCodex/ClassicSnakeGameByCodex/SnakeGame.swift:106-136 | one tick; its contract is stated by `GameSpec.StepWhenStopped`, `GameSpec.StepCommitsDirection`, `GameSpec.StepCollision`, `GameSpec.StepMove`, `GameSpec.StepScore`, `GameSpec.StepPreservesInv` and `GameSpec.FullBoardEndsGame` |
| `GameSpec.StepWhenStopped` | ClassicSnakeGameByCodex/ClassicSnakeGameByCodex/SnakeGame.swift:106-107 | while the game is over or paused a step leaves the whole state unchanged |
| `GameSpec.StepCommitsDirection` | ClassicSnakeGameByCodex/ClassicSnakeGameByCodex/SnakeGame.swift:109-112 | a running step clears the pending direction, takes the pending direction if there was one, and never moves opposite to the previous direction |
| `GameSpec.StepCollision` | ClassicSnakeGameByCodex/ClassicSnakeGameByCodex/SnakeGame.swift:114-126 | a new head off the board or on any snake cell, tail included, ends the game with snake, food, score and generator unchanged |
| `GameSpec.StepMove` | ClassicSnakeGameByCodex/ClassicSnakeGameByCodex/SnakeGame.swift:128-135 | otherwise the head moves to the new cell; on the food the snake is `[newHead] + old snake` and score rises by one; elsewhere the tail is dropped and length, score, food and generator are unchanged |
| `GameSpec.StepScore` | ClassicSnakeGameByCodex/ClassicSnakeGameByCodex/SnakeGame.swift:128-135 | a step raises the score by zero or one, and by one exactly when the snake grows by one |
| `GameSpec.StepPreservesInv` | ClassicSnakeGameByCodex/ClassicSnakeGameByCodex/SnakeGame.swift:106-136 | every step keeps the snake on the board without repeated cells, the food on the board and, while the snake is shorter than the board, off the snake, and the length at 3 + score |
| `GameSpec.CommandPreservesInv` | ClassicSnakeGameByCodex/ClassicSnakeGameByCodex/SnakeGame.swift:97-136 | each of the three inputs keeps the invariant |
| `GameSpec.SnakeFitsBoard` | ClassicSnakeGameByCodex/ClassicSnakeGameByCodex/SnakeGame.swift:128-135 | a valid snake is never longer than rows*cols |
| `GameSpec.FullBoardEndsGame` | ClassicSnakeGameByCodex/ClassicSnakeGameByCodex/SnakeGame.swift:123-126 | once the snake covers the board, the next running step ends the game |
| `GameSpec.GameOverIsFinal` | ClassicSnakeGameByCodex/ClassicSnakeGameByCodex/SnakeGame.swift:106-107 | after game over, no sequence of inputs clears game over or changes snake, food or score |
| `GameSpec.RunScoreMonotone` | ClassicSnakeGameByCodex/ClassicSnakeGameByCodex/SnakeGame.swift:130-131 | over any sequence of inputs the score never decreases and the board size never changes |
| `GameState.SnakeGameState.constructor` | ClassicSnakeGameByCodex/ClassicSnakeGameByCodex/SnakeGame.swift:72-91 | for rows >= 1 and cols >= 4 the new object holds `Initial(rows, cols, seed)` and is valid |
| `GameState.SnakeGameState.Reset` | ClassicSnakeGameByCodex/ClassicSnakeGameByCodex/SnakeGame.swift:93-95 | the object is rebuilt as `Initial` on the same rows and cols with the new seed and a fresh generator |
| `GameState.SnakeGameState.QueueDirection` | ClassicSnakeGameByCodex/ClassicSnakeGameByCodex/SnakeGame.swift:97-100 | a reversal changes nothing; any other direction changes only the pending direction, to that direction |
| `GameState.SnakeGameState.TogglePause` | ClassicSnakeGameByCodex/ClassicSnakeGameByCodex/SnakeGame.swift:102-104 | flips the pause flag and changes nothing else |
| `GameState.SnakeGameState.Step` | ClassicSnakeGameByCodex/ClassicSnakeGameByCodex/SnakeGame.swift:106-136 | the in-place update equals `GameSpec.Step` of the old state and keeps the object valid |
| `GameState.SnakeGameState.SpawnFood` | ClassicSnakeGameByCodex/ClassicSnakeGameByCodex/SnakeGame.swift:138-151 | the sampling loop returns the cell and leaves the generator state that `GameSpec.SpawnFood` gives |
| `GameDriver.SnakeGame.constructor` | ClassicSnakeGameByCodex/ClassicSnakeGameByCodex/SnakeGame.swift:163-167 | the owned state is `Initial(rows, cols, seed)` and the driver is not running |
| `GameDriver.SnakeGame.Tick` | ClassicSnakeGameByCodex/ClassicSnakeGameByCodex/SnakeGame.swift:179-181 | a tick steps the game while the driver is running and changes nothing otherwise |
| `GameDriver.SnakeGame.Restart` | ClassicSnakeGameByCodex/ClassicSnakeGameByCodex/SnakeGame.swift:192-196 | the state is rebuilt on the same board with the new seed and the driver is running |
| `GameDriver.SnakeGame.TogglePause` | ClassicSnakeGameByCodex/ClassicSnakeGameByCodex/SnakeGame.swift:198-200 | forwards to the state's pause toggle |
| `GameDriver.SnakeGame.SetDirection` | ClassicSnakeGameByCodex/ClassicSnakeGameByCodex/SnakeGame.swift:202-204 | forwards to the state's direction request |

## Left out

- GameSpec.Sample: the sampling loop is bounded by `MaxDraws` = 2^64 draws. `decreases *` is not available, and termination rests on the generator's full period (the Hull-Dobell theorem), which is not proved here. If the bound were ever reached, the model takes the first free cell in row-major order. The Swift code would keep drawing, but the full period means the bound is never reached, so the two agree on every input.
- GameState.SnakeGameState.SpawnFood: the same bound and stand-in as `GameSpec.Sample`.
- GameState.SnakeGameState.constructor: requires `cols >= 4` and `rows >= 1`. With fewer columns the tail segment at `cols/2 - 2` lies off the board, and the Swift code does not guard against that.
- Lcg.Lcrng.NextInt: requires a positive bound. The Swift code traps on a zero or negative bound. Its only caller passes rows*cols, which is positive there.
- Swift's 64-bit `Int` is modelled as an unbounded integer for `rows*cols`, the score and the head coordinates. With board-sized values none of these can reach the overflow trap.
- `SnakeGameState` is a Swift struct, so callers read copies of it. The model keeps one object and updates it in place. `SnakeGame.restart` replaces the struct value; here `Reset` reassigns the same object's fields and allocates a new generator.
- `SnakeGame.start` and `SnakeGame.stop` (the `Task` that sleeps and ticks, its cancellation and `@MainActor`) are concurrency and timing, so they are not modelled. `Tick` models the body of one tick.
- The tick interval conversion from `Double` seconds to nanoseconds is floating point and is left out.
- GameDriver.SnakeGame.constructor: the default board of 20 x 20 rows and columns and the default tick interval of 0.18 seconds are not modelled; rows, cols and the seed are always passed in.
- The seeds taken from the clock (`Date().timeIntervalSince1970 * 1000`) are left out. The seed is a parameter of the constructors and of `Restart`.
- The `RandomNumberGenerator` protocol conformance of `LCRNG` (the standard library's other members) is left out. The game uses only `next` and `nextInt`.
- `Observation`, `@Observable` and the SwiftUI views in `SnakeGameView.swift`, `ContentView.swift` and `Item.swift` are presentation and app scaffolding with no game logic. They are not part of this model.
