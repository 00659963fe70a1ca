/**
 * The SnakeGameState struct as a class whose methods update its fields in
 * place. The constructor and the methods Reset, QueueDirection, TogglePause
 * and Step are proved to perform the transition of the same name in module
 * GameSpec on the value `View()`, and to keep `Valid()`. SpawnFood, which runs
 * in the middle of a step, is proved to give the food and generator state of
 * `GameSpec.SpawnFood`.
 */
module GameState {
  import opened Grid
  import opened Board
  import opened Lcg
  import opened GameSpec

  class SnakeGameState {
    const rows: int
    const cols: int

    var snake: seq<GridPoint>      // head first
    var direction: Direction
    var food: GridPoint
    var score: nat
    var isGameOver: bool
    var isPaused: bool
    var pendingDirection: Option<Direction>
    var rng: Lcrng

    /** The value this object currently holds. */
    function View(): Game
      reads this, rng
    {
      Game(rows, cols, snake, direction, pendingDirection, food, score, isGameOver, isPaused, rng.state)
    }

    ghost predicate Valid()
      reads this, rng
    {
      cols >= 4 && Inv(View())
    }

    constructor (rows: int, cols: int, seed: UInt64)
      requires rows >= 1 && cols >= 4
      ensures Valid() && fresh(rng)
      ensures View() == Initial(rows, cols, seed)
    {
      this.rows := rows;
      this.cols := cols;
      snake := InitialSnake(rows, cols);
      direction := Right;
      score := 0;
      isGameOver := false;
      isPaused := false;
      pendingDirection := None;
      rng := new Lcrng(seed);
      food := GridPoint(0, 0);
      new;
      food := SpawnFood();
      InitialIsValid(rows, cols, seed);
    }

    /** Starts over on the same board with a new seed. */
    method Reset(seed: UInt64)
      requires Valid()
      modifies this
      ensures Valid() && fresh(rng)
      ensures View() == Initial(rows, cols, seed)
    {
      snake := InitialSnake(rows, cols);
      direction := Right;
      score := 0;
      isGameOver := false;
      isPaused := false;
      pendingDirection := None;
      rng := new Lcrng(seed);
      food := GridPoint(0, 0);
      food := SpawnFood();
      InitialIsValid(rows, cols, seed);
    }

    /** Records `newDirection` for the next step unless it reverses the current direction. */
    method QueueDirection(newDirection: Direction)
      requires Valid()
      modifies this
      ensures Valid() && rng == old(rng)
      ensures View() == GameSpec.QueueDirection(old(View()), newDirection)
      ensures IsOpposite(old(direction), newDirection) ==> View() == old(View())
      ensures !IsOpposite(old(direction), newDirection) ==>
        View() == old(View()).(pendingDirection := Some(newDirection))
    {
      if IsOpposite(direction, newDirection) {
        return;
      }
      pendingDirection := Some(newDirection);
    }

    method TogglePause()
      requires Valid()
      modifies this
      ensures Valid() && rng == old(rng)
      ensures View() == GameSpec.TogglePause(old(View()))
      ensures View() == old(View()).(isPaused := !old(isPaused))
    {
      isPaused := !isPaused;
    }

    /** One tick: commit the pending direction, move the head, and collide, eat or drop the tail. */
    method Step()
      requires Valid()
      modifies this, rng
      ensures Valid() && rng == old(rng)
      ensures View() == GameSpec.Step(old(View()))
    {
      ghost var before := View();
      ghost var after := GameSpec.Step(before);
      StepPreservesInv(before);
      if isGameOver || isPaused {
        return;
      }
      if pendingDirection.Some? && !IsOpposite(direction, pendingDirection.value) {
        direction := pendingDirection.value;
      }
      pendingDirection := None;
      assert direction == CommittedDirection(before);

      var head := snake[0];
      var movement := Vector(direction);
      var newHead := GridPoint(head.x + movement.x, head.y + movement.y);
      assert newHead == Translate(before.snake[0], direction);

      if newHead.x < 0 || newHead.x >= cols || newHead.y < 0 || newHead.y >= rows {
        isGameOver := true;
        assert View() == after;
        return;
      }
      if newHead in snake {
        isGameOver := true;
        assert View() == after;
        return;
      }

      snake := [newHead] + snake;
      if newHead == food {
        score := score + 1;
        food := SpawnFood();
      } else {
        snake := snake[..|snake| - 1];
        assert snake == [newHead] + before.snake[..|before.snake| - 1];
      }
      assert View() == after;
    }

    /** Draws cells from the generator until one is off the snake; (0,0) when the snake fills the board. */
    method SpawnFood() returns (p: GridPoint)
      requires rows > 0 && cols > 0
      modifies rng
      ensures Spawned(p, rng.state) == GameSpec.SpawnFood(snake, rows, cols, old(rng.state))
    {
      var total := rows * cols;
      if |snake| >= total {
        return GridPoint(0, 0);
      }

      var draws: nat := 0;
      var free := false;
      p := GridPoint(0, 0);
      while !free && draws < MaxDraws
        invariant draws <= MaxDraws
        invariant free ==> Spawned(p, rng.state) == GameSpec.SpawnFood(snake, rows, cols, old(rng.state))
        invariant !free ==> Sample(snake, rows, cols, rng.state, MaxDraws - draws)
                            == GameSpec.SpawnFood(snake, rows, cols, old(rng.state))
        decreases MaxDraws - draws
      {
        var index := rng.NextInt(total);
        p := CellAt(index, cols);
        free := p !in snake;
        draws := draws + 1;
      }
      if !free {
        // Unreachable: the generator's full period makes some draw land on a free cell first.
        p := CellAt(FirstFree(snake, cols, 0, total), cols);
      }
    }
  }
}
