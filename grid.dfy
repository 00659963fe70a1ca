/** Grid points and the four movement directions of the snake. */
module Grid {

  /** A cell of the board; x grows to the right, y grows downwards. */
  datatype GridPoint = GridPoint(x: int, y: int)

  datatype Direction = Up | Down | Left | Right

  /** The unit displacement of one step in direction `d`. */
  function Vector(d: Direction): (v: GridPoint)
    ensures (v.x == 0) != (v.y == 0)
    ensures -1 <= v.x <= 1 && -1 <= v.y <= 1
    ensures d == Up || d == Down <==> v.x == 0
    ensures d == Right || d == Down <==> v.x + v.y == 1
  {
    match d
    case Up => GridPoint(0, -1)
    case Down => GridPoint(0, 1)
    case Left => GridPoint(-1, 0)
    case Right => GridPoint(1, 0)
  }

  /** True exactly for the four 180-degree reversals. */
  predicate IsOpposite(d: Direction, other: Direction) {
    match (d, other)
    case (Up, Down) => true
    case (Down, Up) => true
    case (Left, Right) => true
    case (Right, Left) => true
    case _ => false
  }

  /** Reference definition of the reversal of a direction. */
  function Reverse(d: Direction): (r: Direction)
    ensures r != d
    ensures Vector(r) == GridPoint(-Vector(d).x, -Vector(d).y)
  {
    match d
    case Up => Down
    case Down => Up
    case Left => Right
    case Right => Left
  }

  /** The point one step from `p` in direction `d`. */
  function Translate(p: GridPoint, d: Direction): (q: GridPoint)
    ensures q != p
    ensures (q.x - p.x) * (q.x - p.x) + (q.y - p.y) * (q.y - p.y) == 1
  {
    GridPoint(p.x + Vector(d).x, p.y + Vector(d).y)
  }

  /** `IsOpposite` relates each direction to exactly one other: its reversal. */
  lemma IsOppositeIsReverse(d: Direction, other: Direction)
    ensures IsOpposite(d, other) <==> other == Reverse(d)
  {
  }

  lemma IsOppositeSymmetric(d: Direction, other: Direction)
    ensures IsOpposite(d, other) <==> IsOpposite(other, d)
  {
    IsOppositeIsReverse(d, other);
    IsOppositeIsReverse(other, d);
  }

  lemma IsOppositeIrreflexive(d: Direction)
    ensures !IsOpposite(d, d)
  {
    IsOppositeIsReverse(d, d);
  }

  /** Two directions are opposite exactly when their vectors cancel out. */
  lemma OppositeVectorsCancel(d: Direction, other: Direction)
    ensures IsOpposite(d, other) <==>
            Vector(d).x + Vector(other).x == 0 && Vector(d).y + Vector(other).y == 0
  {
    IsOppositeIsReverse(d, other);
  }

  /** Stepping in a direction and then in its opposite comes back to the start. */
  lemma {:induction false} TranslateBack(p: GridPoint, d: Direction, other: Direction)
    requires IsOpposite(d, other)
    ensures Translate(Translate(p, d), other) == p
  {
    OppositeVectorsCancel(d, other);
  }
}
