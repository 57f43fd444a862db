/**
 * Grid geometry of an N×N sliding-tile board stored row-major in a flat
 * sequence: cell `i` sits at row `i / N`, column `i % N`.
 * The game only ever asks about non-negative indices (`ApplyMove` checks that
 * the blank was found and the click is on the board first). On those, Dafny's
 * Euclidean `/` and `%` agree with `Math.floor(i / N)` and `i % N` in
 * `script.js`; on a negative index the two `%` differ (-1 % 4 is 3 here and -1
 * in JavaScript), so `Row`, `Col` and `IsAdjacent` say nothing about such indices.
 */
module Geometry {

  function Abs(x: int): int { if x < 0 then -x else x }

  function Row(n: int, i: int): int
    requires n >= 1
  {
    i / n
  }

  function Col(n: int, i: int): int
    requires n >= 1
  {
    i % n
  }

  /** A cell index on an n×n board. */
  predicate InBoard(n: int, i: int)
  {
    0 <= i < n * n
  }

  /** Manhattan distance of two cells, measured in (row, column). */
  function Distance(n: int, i: int, j: int): int
    requires n >= 1
  {
    Abs(Row(n, i) - Row(n, j)) + Abs(Col(n, i) - Col(n, j))
  }

  /** `isAdjacent`: the two cells are orthogonal neighbours. */
  predicate IsAdjacent(n: int, i: int, j: int)
    requires n >= 1
  {
    Distance(n, i, j) == 1
  }

  /** Multiplying by a non-negative factor keeps the order. */
  lemma MulMono(a: int, b: int, c: int)
    ensures a <= b && c >= 0 ==> a * c <= b * c
  {
    if a <= b && c >= 0 {
      assert (b - a) * c >= 0;
    }
  }

  /** Row and column of an in-range cell are in [0, n). */
  lemma CellBounds(n: int, i: int)
    requires n >= 1 && InBoard(n, i)
    ensures 0 <= Row(n, i) < n && 0 <= Col(n, i) < n
    ensures i == Row(n, i) * n + Col(n, i)
  {
    var q, m := i / n, i % n;
    assert i == q * n + m && 0 <= m < n;
    MulMono(n, q, n);
    MulMono(q, -1, n);
  }

  /** The (row, column) pair determines the index, and back. */
  lemma CellOf(n: int, r: int, c: int)
    requires n >= 1 && 0 <= c < n
    ensures Row(n, r * n + c) == r && Col(n, r * n + c) == c
  {
    var i := r * n + c;
    var q, m := i / n, i % n;
    assert i == q * n + m && 0 <= m < n;
    assert (q - r) * n == c - m;
    MulMono(1, q - r, n);
    MulMono(q - r, -1, n);
  }

  /** `getAdjacentIndices`: up, down, left, right, each only if it stays on the board. */
  function AdjacentIndices(n: int, index: int): (r: seq<int>)
    requires n >= 1 && InBoard(n, index)
    ensures n >= 2 ==> |r| >= 2
  {
    CellBounds(n, index);
    var row := index / n;
    var col := index % n;
    var up := if row > 0 then [index - n] else [];
    var down := if row < n - 1 then [index + n] else [];
    var left := if col > 0 then [index - 1] else [];
    var right := if col < n - 1 then [index + 1] else [];
    up + down + left + right
  }

  /** Two on-board cells whose (row, column) pairs are at distance 1 are adjacent. */
  lemma CellsAdjacent(n: int, r1: int, c1: int, r2: int, c2: int)
    requires n >= 1 && 0 <= r1 < n && 0 <= c1 < n && 0 <= r2 < n && 0 <= c2 < n
    requires Abs(r1 - r2) + Abs(c1 - c2) == 1
    ensures InBoard(n, r2 * n + c2) && IsAdjacent(n, r1 * n + c1, r2 * n + c2)
  {
    CellOf(n, r1, c1);
    CellOf(n, r2, c2);
    MulMono(r2, n - 1, n);
    MulMono(0, r2, n);
  }

  /** The cell above an on-board cell not in the top row is on the board and adjacent. */
  lemma NeighbourUp(n: int, i: int)
    requires n >= 1 && InBoard(n, i) && Row(n, i) > 0
    ensures InBoard(n, i - n) && IsAdjacent(n, i, i - n)
  {
    CellBounds(n, i);
    var r, c := Row(n, i), Col(n, i);
    CellsAdjacent(n, r, c, r - 1, c);
    assert (r - 1) * n + c == i - n;
  }

  /** The cell below an on-board cell not in the bottom row is on the board and adjacent. */
  lemma NeighbourDown(n: int, i: int)
    requires n >= 1 && InBoard(n, i) && Row(n, i) < n - 1
    ensures InBoard(n, i + n) && IsAdjacent(n, i, i + n)
  {
    CellBounds(n, i);
    var r, c := Row(n, i), Col(n, i);
    CellsAdjacent(n, r, c, r + 1, c);
    assert (r + 1) * n + c == i + n;
  }

  /** The cell to the left of an on-board cell not in the first column is on the board and adjacent. */
  lemma NeighbourLeft(n: int, i: int)
    requires n >= 1 && InBoard(n, i) && Col(n, i) > 0
    ensures InBoard(n, i - 1) && IsAdjacent(n, i, i - 1)
  {
    CellBounds(n, i);
    CellsAdjacent(n, Row(n, i), Col(n, i), Row(n, i), Col(n, i) - 1);
  }

  /** The cell to the right of an on-board cell not in the last column is on the board and adjacent. */
  lemma NeighbourRight(n: int, i: int)
    requires n >= 1 && InBoard(n, i) && Col(n, i) < n - 1
    ensures InBoard(n, i + 1) && IsAdjacent(n, i, i + 1)
  {
    CellBounds(n, i);
    CellsAdjacent(n, Row(n, i), Col(n, i), Row(n, i), Col(n, i) + 1);
  }

  /** Every listed cell is on the board and adjacent to `index`. */
  lemma AdjacentIndicesSound(n: int, index: int)
    requires n >= 1 && InBoard(n, index)
    ensures forall k :: k in AdjacentIndices(n, index) ==> InBoard(n, k) && IsAdjacent(n, index, k)
  {
    if Row(n, index) > 0 { NeighbourUp(n, index); }
    if Row(n, index) < n - 1 { NeighbourDown(n, index); }
    if Col(n, index) > 0 { NeighbourLeft(n, index); }
    if Col(n, index) < n - 1 { NeighbourRight(n, index); }
  }

  /** Every on-board neighbour of `index` is listed: `getAdjacentIndices` misses none. */
  lemma AdjacentIndicesComplete(n: int, index: int, j: int)
    requires n >= 1 && InBoard(n, index) && InBoard(n, j)
    requires IsAdjacent(n, index, j)
    ensures j in AdjacentIndices(n, index)
  {
    AdjacentDirections(n, index, j);
  }

  /** An adjacent on-board cell is the one above, below, left or right, and that side exists. */
  lemma AdjacentDirections(n: int, i: int, j: int)
    requires n >= 1 && InBoard(n, i) && InBoard(n, j) && IsAdjacent(n, i, j)
    ensures (Row(n, i) > 0 && j == i - n) || (Row(n, i) < n - 1 && j == i + n) ||
            (Col(n, i) > 0 && j == i - 1) || (Col(n, i) < n - 1 && j == i + 1)
  {
    CellBounds(n, i);
    CellBounds(n, j);
    var r1, c1, r2, c2 := Row(n, i), Col(n, i), Row(n, j), Col(n, j);
    if r2 == r1 - 1 {
      assert j == (r1 - 1) * n + c1;
    } else if r2 == r1 + 1 {
      assert j == (r1 + 1) * n + c1;
    }
  }

  /** For in-range cells, `isAdjacent` and membership in `getAdjacentIndices` are the same relation. */
  lemma AdjacentIffListed(n: int, i: int, j: int)
    requires n >= 1 && InBoard(n, i) && InBoard(n, j)
    ensures IsAdjacent(n, i, j) <==> j in AdjacentIndices(n, i)
  {
    AdjacentIndicesSound(n, i);
    if IsAdjacent(n, i, j) {
      AdjacentIndicesComplete(n, i, j);
    }
  }

  /** Adjacency is symmetric, so listing is too. */
  lemma ListedSymmetric(n: int, i: int, j: int)
    requires n >= 1 && InBoard(n, i) && InBoard(n, j)
    requires j in AdjacentIndices(n, i)
    ensures i in AdjacentIndices(n, j)
  {
    AdjacentIndicesSound(n, i);
    assert IsAdjacent(n, j, i);
    AdjacentIndicesComplete(n, j, i);
  }

  /** `getAdjacentIndices` never lists a cell twice. */
  lemma AdjacentIndicesDistinct(n: int, index: int)
    requires n >= 1 && InBoard(n, index)
    ensures var s := AdjacentIndices(n, index);
      forall a, b :: 0 <= a < b < |s| ==> s[a] != s[b]
  {
    CellBounds(n, index);
  }

  /** 2 neighbours in a corner, 3 on an edge, 4 inside; none on a 1×1 board. */
  lemma AdjacentIndicesCount(n: int, index: int)
    requires n >= 1 && InBoard(n, index)
    ensures var row, col := Row(n, index), Col(n, index);
      var edges := (if row == 0 || row == n - 1 then 1 else 0) + (if col == 0 || col == n - 1 then 1 else 0);
      |AdjacentIndices(n, index)| == (if n == 1 then 0 else 4 - edges)
  {
    CellBounds(n, index);
  }

  /** Picture mode: the home cell (row, column) of a tile value, `originalRow` / `originalCol`. */
  function HomeCell(n: int, value: int): (rc: (int, int))
    requires n >= 1 && 1 <= value < n * n
    ensures 0 <= rc.0 < n && 0 <= rc.1 < n
    ensures rc.0 * n + rc.1 == value - 1
  {
    CellBounds(n, value - 1);
    ((value - 1) / n, (value - 1) % n)
  }

  /**
   * Picture mode: the background offset, in percent, that shows the tile's home
   * crop of an image scaled to n×100% (`percentX`, `percentY`). Exact reals.
   */
  function BackgroundPercent(n: int, value: int): (p: (real, real))
    requires n >= 2 && 1 <= value < n * n
    ensures 0.0 <= p.0 <= 100.0 && 0.0 <= p.1 <= 100.0
    ensures (p.0 == 0.0 <==> HomeCell(n, value).1 == 0) && (p.0 == 100.0 <==> HomeCell(n, value).1 == n - 1)
    ensures (p.1 == 0.0 <==> HomeCell(n, value).0 == 0) && (p.1 == 100.0 <==> HomeCell(n, value).0 == n - 1)
  {
    var (row, col) := HomeCell(n, value);
    var step := 100.0 / (n - 1) as real;
    PercentBounds(n, col);
    PercentBounds(n, row);
    (col as real * step, row as real * step)
  }

  lemma PercentBounds(n: int, k: int)
    requires n >= 2 && 0 <= k < n
    ensures var x := k as real * (100.0 / (n - 1) as real);
      0.0 <= x <= 100.0 && (x == 0.0 <==> k == 0) && (x == 100.0 <==> k == n - 1)
  {
    var d := (n - 1) as real;
    var step := 100.0 / d;
    assert step * d == 100.0;
    assert step > 0.0;
    var x := k as real * step;
    assert x * d == 100.0 * k as real;
  }
}
