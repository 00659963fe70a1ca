/**
 * The snake game as a value: the state the SnakeGameState struct holds and
 * the transitions its mutating methods perform, as functions. The class in
 * module GameState is proved to follow these; the lemmas here state what the
 * transitions promise.
 */
module GameSpec {
  import opened Grid
  import opened Board
  import opened Lcg

  datatype Option<T> = None | Some(value: T)

  /**
   * Draws before food placement gives up on sampling. The generator has full
   * period 2^64 (odd increment, multiplier = 1 mod 4), so within this many
   * draws it passes through every state and hence every cell number; the
   * sampling loop of the game always stops before the bound is reached.
   */
  const MaxDraws: nat := 0x1_0000_0000_0000_0000

  datatype Game = Game(
    rows: int,
    cols: int,
    snake: seq<GridPoint>,          // head first
    direction: Direction,
    pendingDirection: Option<Direction>,
    food: GridPoint,
    score: nat,
    isGameOver: bool,
    isPaused: bool,
    rngState: UInt64)

  /** Where food went and the generator state after placing it. */
  datatype Spawned = Spawned(food: GridPoint, rngState: UInt64)

  /** The first cell number at or after `i` that the snake leaves free, or `total` if none. */
  function FirstFree(snake: seq<GridPoint>, cols: int, i: nat, total: nat): (k: nat)
    requires cols > 0 && i <= total
    ensures i <= k <= total
    ensures k < total ==> CellAt(k, cols) !in snake
    ensures forall j: nat :: i <= j < k ==> CellAt(j, cols) in snake
    decreases total - i
  {
    if i == total then total
    else if CellAt(i, cols) !in snake then i
    else FirstFree(snake, cols, i + 1, total)
  }

  /**
   * Rejection sampling with `fuel` draws left: draw a cell number below
   * rows*cols, and keep drawing while the snake covers that cell.
   */
  function Sample(snake: seq<GridPoint>, rows: int, cols: int, s: UInt64, fuel: nat): (r: Spawned)
    requires rows > 0 && cols > 0 && |snake| < rows * cols
    ensures InBounds(r.food, rows, cols)
    ensures r.food !in snake
    decreases fuel
  {
    var total := rows * cols;
    if fuel == 0 then
      FreeCellExists(snake, rows, cols);
      var k := FirstFree(snake, cols, 0, total);
      CellAtInBounds(k, rows, cols);
      Spawned(CellAt(k, cols), s)
    else
      var s' := NextState(s);
      var candidate := CellAt(s' % total, cols);
      CellAtInBounds(s' % total, rows, cols);
      if candidate in snake then Sample(snake, rows, cols, s', fuel - 1)
      else Spawned(candidate, s')
  }

  /** Food placement: a free cell drawn from the generator, or (0,0) once the snake fills the board. */
  function SpawnFood(snake: seq<GridPoint>, rows: int, cols: int, s: UInt64): (r: Spawned)
    requires rows > 0 && cols > 0
    ensures InBounds(r.food, rows, cols)
    ensures |snake| < rows * cols ==> r.food !in snake
    ensures |snake| >= rows * cols ==> r == Spawned(GridPoint(0, 0), s)
  {
    if |snake| >= rows * cols then Spawned(GridPoint(0, 0), s)
    else Sample(snake, rows, cols, s, MaxDraws)
  }

  function InitialSnake(rows: int, cols: int): seq<GridPoint> {
    var midX, midY := cols / 2, rows / 2;
    [GridPoint(midX, midY), GridPoint(midX - 1, midY), GridPoint(midX - 2, midY)]
  }

  /** A new game: a three-cell snake in the middle heading right, food placed from the seed. */
  function Initial(rows: int, cols: int, seed: UInt64): Game
    requires rows >= 1 && cols >= 4
  {
    var snake := InitialSnake(rows, cols);
    var spawned := SpawnFood(snake, rows, cols, SeedState(seed));
    Game(rows, cols, snake, Right, None, spawned.food, 0, false, false, spawned.rngState)
  }

  function QueueDirection(g: Game, d: Direction): Game {
    if IsOpposite(g.direction, d) then g else g.(pendingDirection := Some(d))
  }

  function TogglePause(g: Game): Game {
    g.(isPaused := !g.isPaused)
  }

  /** The direction a step moves in: the pending one unless it reverses the current one. */
  function CommittedDirection(g: Game): Direction {
    if g.pendingDirection.Some? && !IsOpposite(g.direction, g.pendingDirection.value)
    then g.pendingDirection.value
    else g.direction
  }

  /** One tick of the game. */
  function Step(g: Game): Game
    requires g.rows > 0 && g.cols > 0 && |g.snake| > 0
  {
    if g.isGameOver || g.isPaused then g
    else
      var direction := CommittedDirection(g);
      var committed := g.(direction := direction, pendingDirection := None);
      var newHead := Translate(g.snake[0], direction);
      if !InBounds(newHead, g.rows, g.cols) || newHead in g.snake then
        committed.(isGameOver := true)
      else if newHead == g.food then
        var grown := [newHead] + g.snake;
        var spawned := SpawnFood(grown, g.rows, g.cols, g.rngState);
        committed.(snake := grown, score := g.score + 1, food := spawned.food, rngState := spawned.rngState)
      else
        committed.(snake := [newHead] + g.snake[..|g.snake| - 1])
  }

  /** What every reachable game satisfies. */
  ghost predicate Inv(g: Game) {
    && g.rows > 0 && g.cols > 0
    && |g.snake| == 3 + g.score
    && AllInBounds(g.snake, g.rows, g.cols)
    && NoDuplicates(g.snake)
    && InBounds(g.food, g.rows, g.cols)
    && (|g.snake| < g.rows * g.cols ==> g.food !in g.snake)
    && (g.pendingDirection.Some? ==> !IsOpposite(g.direction, g.pendingDirection.value))
  }

  /** The inputs the game reacts to, in the order they reach it. */
  datatype Command = Turn(d: Direction) | Pause | Tick

  function Apply(g: Game, c: Command): Game
    requires Inv(g)
  {
    match c
    case Turn(d) => QueueDirection(g, d)
    case Pause => TogglePause(g)
    case Tick => Step(g)
  }

  function Run(g: Game, cmds: seq<Command>): (r: Game)
    requires Inv(g)
    ensures Inv(r)
    decreases |cmds|
  {
    if cmds == [] then g
    else
      var next := Apply(g, cmds[0]);
      CommandPreservesInv(g, cmds[0]);
      Run(next, cmds[1..])
  }

  // ---- construction ----

  /** A new game is a valid three-cell snake at the centre heading right, with nothing pending. */
  lemma InitialIsValid(rows: int, cols: int, seed: UInt64)
    requires rows >= 1 && cols >= 4
    ensures var g := Initial(rows, cols, seed);
      && Inv(g)
      && g.rows == rows && g.cols == cols
      && g.snake == [GridPoint(cols / 2, rows / 2), GridPoint(cols / 2 - 1, rows / 2), GridPoint(cols / 2 - 2, rows / 2)]
      && g.direction == Right && g.pendingDirection == None
      && g.score == 0 && !g.isGameOver && !g.isPaused
      && g.food !in g.snake
  {
    var g := Initial(rows, cols, seed);
    assert rows * cols >= 4 by {
      MulMonotone(1, rows, cols);
    }
    assert AllInBounds(g.snake, rows, cols);
  }

  // ---- direction requests and pausing ----

  lemma QueueDirectionPreservesInv(g: Game, d: Direction)
    requires Inv(g)
    ensures Inv(QueueDirection(g, d))
  {
  }

  /** A reversal request never takes effect, whatever was pending before it. */
  lemma ReversalIgnored(g: Game, d: Direction)
    requires Inv(g) && !g.isGameOver && !g.isPaused
    requires IsOpposite(g.direction, d)
    ensures Step(QueueDirection(g, d)).direction != d
    ensures g.pendingDirection == None ==> Step(QueueDirection(g, d)).direction == g.direction
  {
    IsOppositeIrreflexive(d);
    if g.pendingDirection.Some? {
      IsOppositeIsReverse(g.direction, d);
      IsOppositeIsReverse(g.direction, g.pendingDirection.value);
    }
  }

  /** A later request overwrites an earlier one that was accepted. */
  lemma LastRequestWins(g: Game, d1: Direction, d2: Direction)
    requires !IsOpposite(g.direction, d2)
    ensures QueueDirection(QueueDirection(g, d1), d2) == QueueDirection(g, d2)
  {
  }

  // ---- step ----

  /** While the game is over or paused a step changes nothing. */
  lemma StepWhenStopped(g: Game)
    requires g.rows > 0 && g.cols > 0 && |g.snake| > 0
    requires g.isGameOver || g.isPaused
    ensures Step(g) == g
  {
  }

  /** A running step consumes the pending request and never reverses the direction. */
  lemma StepCommitsDirection(g: Game)
    requires Inv(g) && !g.isGameOver && !g.isPaused
    ensures Step(g).pendingDirection == None
    ensures !IsOpposite(g.direction, Step(g).direction)
    ensures Step(g).direction == if g.pendingDirection.Some? then g.pendingDirection.value else g.direction
  {
    IsOppositeIrreflexive(g.direction);
  }

  /** Hitting a wall or the snake ends the game and leaves snake, food, score and generator alone. */
  lemma StepCollision(g: Game)
    requires Inv(g) && !g.isGameOver && !g.isPaused
    requires var h := Translate(g.snake[0], CommittedDirection(g));
      !InBounds(h, g.rows, g.cols) || h in g.snake
    ensures Step(g).isGameOver
    ensures Step(g).snake == g.snake && Step(g).food == g.food
    ensures Step(g).score == g.score && Step(g).rngState == g.rngState
    ensures Step(g).isPaused == g.isPaused && Step(g).rows == g.rows && Step(g).cols == g.cols
  {
  }

  /** A step onto a free cell moves the head there and either eats and grows or drops the tail. */
  lemma StepMove(g: Game)
    requires g.rows > 0 && g.cols > 0 && |g.snake| > 0 && !g.isGameOver && !g.isPaused
    requires var h := Translate(g.snake[0], CommittedDirection(g));
      InBounds(h, g.rows, g.cols) && h !in g.snake
    ensures var h := Translate(g.snake[0], CommittedDirection(g));
      var r := Step(g);
      && !r.isGameOver
      && r.snake[0] == h
      && (h == g.food ==> r.snake == [h] + g.snake && r.score == g.score + 1)
      && (h != g.food ==> |r.snake| == |g.snake| && r.snake[1..] == g.snake[..|g.snake| - 1]
                          && r.score == g.score && r.food == g.food && r.rngState == g.rngState)
  {
  }

  /** Score never goes down, and goes up by at most one per step. */
  lemma StepScore(g: Game)
    requires g.rows > 0 && g.cols > 0 && |g.snake| > 0
    ensures g.score <= Step(g).score <= g.score + 1
    ensures Step(g).score == g.score + 1 <==> |Step(g).snake| == |g.snake| + 1
  {
  }

  /** Every step keeps the snake on the board, without repeated cells, and the food off it. */
  lemma StepPreservesInv(g: Game)
    requires Inv(g)
    ensures Inv(Step(g))
  {
    if !g.isGameOver && !g.isPaused {
      var r := Step(g);
      var h := Translate(g.snake[0], CommittedDirection(g));
      if InBounds(h, g.rows, g.cols) && h !in g.snake {
        var n := |g.snake|;
        if h == g.food {
          assert r.snake == [h] + g.snake;
        } else {
          assert r.snake == [h] + g.snake[..n - 1];
          assert forall i :: 1 <= i < |r.snake| ==> r.snake[i] == g.snake[i - 1];
        }
      }
    }
  }

  lemma CommandPreservesInv(g: Game, c: Command)
    requires Inv(g)
    ensures Inv(Apply(g, c))
  {
    if c.Tick? {
      StepPreservesInv(g);
    }
  }

  /** A valid snake never outgrows the board. */
  lemma SnakeFitsBoard(g: Game)
    requires Inv(g)
    ensures |g.snake| <= g.rows * g.cols
  {
    FitsBoard(g.snake, g.rows, g.cols);
  }

  /** Once the snake fills the board, the next running step ends the game. */
  lemma FullBoardEndsGame(g: Game)
    requires Inv(g) && !g.isGameOver && !g.isPaused
    requires |g.snake| == g.rows * g.cols
    ensures Step(g).isGameOver
  {
    FitsBoard(g.snake, g.rows, g.cols);
  }

  // ---- whole runs ----

  /** Game over is absorbing: no sequence of inputs revives the game or moves the snake. */
  lemma {:induction false} GameOverIsFinal(g: Game, cmds: seq<Command>)
    requires Inv(g) && g.isGameOver
    ensures var r := Run(g, cmds);
      r.isGameOver && r.snake == g.snake && r.food == g.food && r.score == g.score
    decreases |cmds|
  {
    if cmds != [] {
      var next := Apply(g, cmds[0]);
      CommandPreservesInv(g, cmds[0]);
      GameOverIsFinal(next, cmds[1..]);
    }
  }

  /** Score is monotone over any sequence of inputs, and rows and cols never change. */
  lemma {:induction false} RunScoreMonotone(g: Game, cmds: seq<Command>)
    requires Inv(g)
    ensures Run(g, cmds).score >= g.score
    ensures Run(g, cmds).rows == g.rows && Run(g, cmds).cols == g.cols
    decreases |cmds|
  {
    if cmds != [] {
      var next := Apply(g, cmds[0]);
      CommandPreservesInv(g, cmds[0]);
      if cmds[0].Tick? {
        StepScore(g);
      }
      RunScoreMonotone(next, cmds[1..]);
    }
  }
}
