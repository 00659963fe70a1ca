/**
 * The rows x cols board: bounds, the row-major numbering of its cells that
 * food placement draws from, and the counting facts about snakes on it.
 */
module Board {
  import opened Grid

  predicate InBounds(p: GridPoint, rows: int, cols: int) {
    0 <= p.x < cols && 0 <= p.y < rows
  }

  ghost predicate AllInBounds(s: seq<GridPoint>, rows: int, cols: int) {
    forall i :: 0 <= i < |s| ==> InBounds(s[i], rows, cols)
  }

  ghost predicate NoDuplicates(s: seq<GridPoint>) {
    forall i, j :: 0 <= i < j < |s| ==> s[i] != s[j]
  }

  /** The cell with row-major number `index`: column `index % cols`, row `index / cols`. */
  function CellAt(index: nat, cols: int): GridPoint
    requires cols > 0
  {
    GridPoint(index % cols, index / cols)
  }

  /** The row-major number of a cell. */
  function IndexOf(p: GridPoint, cols: int): int {
    p.y * cols + p.x
  }

  /** Every number below rows*cols names a cell on the board. */
  lemma CellAtInBounds(index: nat, rows: int, cols: int)
    requires rows > 0 && cols > 0 && index < rows * cols
    ensures InBounds(CellAt(index, cols), rows, cols)
  {
    var q := index / cols;
    assert index == q * cols + index % cols;
    if q >= rows {
      MulMonotone(rows, q, cols);
    }
  }

  lemma {:induction false} MulMonotone(a: int, b: int, n: int)
    requires 0 <= a <= b && n > 0
    ensures a * n <= b * n
    decreases b - a
  {
    if a < b {
      MulMonotone(a + 1, b, n);
      assert (a + 1) * n == a * n + n;
    }
  }

  lemma MulBelow(d: int, n: int)
    requires n > 0 && -n < d * n < n
    ensures d == 0
  {
    if d >= 1 {
      MulMonotone(1, d, n);
    } else if d <= -1 {
      MulMonotone(1, -d, n);
    }
  }

  /** Numbering a cell and taking the cell of that number gives it back. */
  lemma CellAtIndexOf(p: GridPoint, rows: int, cols: int)
    requires rows > 0 && cols > 0 && InBounds(p, rows, cols)
    ensures 0 <= IndexOf(p, cols) < rows * cols
    ensures CellAt(IndexOf(p, cols), cols) == p
  {
    var k := IndexOf(p, cols);
    assert p.y * cols <= (rows - 1) * cols;
    assert 0 <= k;
    assert k / cols == p.y && k % cols == p.x by {
      DivModUnique(k, cols, p.y, p.x);
    }
  }

  lemma DivModUnique(k: int, n: int, q: int, r: int)
    requires n > 0 && 0 <= r < n && k == q * n + r
    ensures k / n == q && k % n == r
  {
    var q', r' := k / n, k % n;
    assert (q - q') * n == r' - r;
    MulBelow(q - q', n);
  }

  /** Distinct numbers name distinct cells. */
  lemma CellAtInjective(i: nat, j: nat, cols: int)
    requires cols > 0 && CellAt(i, cols) == CellAt(j, cols)
    ensures i == j
  {
    assert i == i / cols * cols + i % cols;
    assert j == j / cols * cols + j % cols;
  }

  /** The cells numbered 0 .. n-1. */
  ghost function CellsBelow(n: nat, cols: int): set<GridPoint>
    requires cols > 0
  {
    if n == 0 then {} else CellsBelow(n - 1, cols) + {CellAt(n - 1, cols)}
  }

  lemma {:induction false} CellsBelowMembers(n: nat, cols: int, p: GridPoint)
    requires cols > 0
    ensures p in CellsBelow(n, cols) <==> exists i: nat :: i < n && CellAt(i, cols) == p
  {
    if n > 0 {
      CellsBelowMembers(n - 1, cols, p);
    }
  }

  lemma {:induction false} CellsBelowSize(n: nat, cols: int)
    requires cols > 0
    ensures |CellsBelow(n, cols)| == n
  {
    if n > 0 {
      CellsBelowSize(n - 1, cols);
      if CellAt(n - 1, cols) in CellsBelow(n - 1, cols) {
        CellsBelowMembers(n - 1, cols, CellAt(n - 1, cols));
        var i: nat :| i < n - 1 && CellAt(i, cols) == CellAt(n - 1, cols);
        CellAtInjective(i, n - 1, cols);
      }
    }
  }

  lemma SubsetSize(a: set<GridPoint>, b: set<GridPoint>)
    requires a <= b
    ensures |a| <= |b|
    ensures |a| == |b| ==> a == b
  {
    assert b == a + (b - a);
    assert a * (b - a) == {};
    if |a| == |b| {
      assert |b - a| == 0;
    }
  }

  /** The set of cells a sequence visits. */
  ghost function Cells(s: seq<GridPoint>): set<GridPoint> {
    if s == [] then {} else {s[0]} + Cells(s[1..])
  }

  lemma {:induction false} CellsMembers(s: seq<GridPoint>, p: GridPoint)
    ensures p in Cells(s) <==> p in s
  {
    if s != [] {
      CellsMembers(s[1..], p);
    }
  }

  lemma {:induction false} CellsSize(s: seq<GridPoint>)
    ensures |Cells(s)| <= |s|
    ensures NoDuplicates(s) ==> |Cells(s)| == |s|
  {
    if s != [] {
      CellsSize(s[1..]);
      CellsMembers(s[1..], s[0]);
      assert NoDuplicates(s) ==> NoDuplicates(s[1..]) && s[0] !in s[1..];
    }
  }

  /**
   * Pigeonhole: a snake shorter than the board leaves some numbered cell
   * free, so rejection sampling has something to find.
   */
  lemma FreeCellExists(s: seq<GridPoint>, rows: int, cols: int)
    requires rows > 0 && cols > 0 && |s| < rows * cols
    ensures exists i: nat :: i < rows * cols && CellAt(i, cols) !in s
  {
    var total := rows * cols;
    if forall i: nat :: i < total ==> CellAt(i, cols) in s {
      assert CellsBelow(total, cols) <= Cells(s) by {
        forall p | p in CellsBelow(total, cols) ensures p in Cells(s) {
          CellsBelowMembers(total, cols, p);
          CellsMembers(s, p);
        }
      }
      CellsBelowSize(total, cols);
      CellsSize(s);
      SubsetSize(CellsBelow(total, cols), Cells(s));
    }
  }

  /** A snake without repeated cells that stays on the board is at most as long as the board has cells. */
  lemma FitsBoard(s: seq<GridPoint>, rows: int, cols: int)
    requires rows > 0 && cols > 0 && AllInBounds(s, rows, cols) && NoDuplicates(s)
    ensures |s| <= rows * cols
    ensures |s| == rows * cols ==> forall p :: InBounds(p, rows, cols) ==> p in s
  {
    var total := rows * cols;
    assert Cells(s) <= CellsBelow(total, cols) by {
      forall p | p in Cells(s) ensures p in CellsBelow(total, cols) {
        CellsMembers(s, p);
        CellAtIndexOf(p, rows, cols);
        CellsBelowMembers(total, cols, p);
      }
    }
    CellsSize(s);
    CellsBelowSize(total, cols);
    SubsetSize(Cells(s), CellsBelow(total, cols));
    if |s| == total {
      forall p | InBounds(p, rows, cols) ensures p in s {
        CellAtIndexOf(p, rows, cols);
        CellsBelowMembers(total, cols, p);
        CellsMembers(s, p);
      }
    }
  }
}
