/**
  Cells of the n x n board and the two orders in which the environment hands
  them out: row-major (ordered placement) and as a plain set (random placement).
 */
module Coords {

  /** A board cell, the source's `(row, column)` tuple. */
  datatype Coord = Coord(row: int, col: int)

  predicate InRange(c: Coord, n: int)
  {
    0 <= c.row < n && 0 <= c.col < n
  }

  /** Every cell of the board, in row-major order: the k-th is (k / n, k % n). */
  function RowMajor(n: nat): (cells: seq<Coord>)
    ensures |cells| == n * n
  {
    seq(n * n, k requires 0 <= k < n * n => Coord(k / n, k % n))
  }

  /** Every cell of the board, without an order. */
  function AllCells(n: nat): (cells: set<Coord>)
    ensures forall c :: c in cells <==> InRange(c, n)
  {
    set i, j | 0 <= i < n && 0 <= j < n :: Coord(i, j)
  }

  predicate Distinct(s: seq<Coord>)
  {
    forall i, j :: 0 <= i < j < |s| ==> s[i] != s[j]
  }

  /** The sign of a product of non-negative factors. */
  lemma MulNonneg(a: int, b: int)
    requires a >= 0 && b >= 0
    ensures a * b >= 0
    ensures a > 0 && b > 0 ==> a * b > 0
  {
  }

  /** Division by n undoes `i * n + j` when the column j is in range. */
  lemma DivModRowMajor(n: int, i: int, j: int)
    requires n > 0 && 0 <= j < n
    ensures (i * n + j) / n == i && (i * n + j) % n == j
  {
    var q, r := (i * n + j) / n, (i * n + j) % n;
    assert (i - q) * n == r - j;
    if i - q >= 1 {
      MulNonneg(i - q - 1, n);
    } else if q - i >= 1 {
      MulNonneg(q - i - 1, n);
    }
  }

  /** Cell (i, j) sits at index i * n + j of the row-major order. */
  lemma RowMajorIndex(n: nat, i: int, j: int)
    requires InRange(Coord(i, j), n)
    ensures 0 <= i * n + j < n * n
    ensures RowMajor(n)[i * n + j] == Coord(i, j)
  {
    MulNonneg(i, n);
    MulNonneg(n - 1 - i, n);
    assert (n - 1 - i) * n == n * n - n - i * n;
    DivModRowMajor(n, i, j);
  }

  /** Entry k of the row-major order is an in-range cell. */
  lemma RowMajorInRange(n: nat, k: int)
    requires 0 <= k < n * n
    ensures InRange(RowMajor(n)[k], n)
  {
    var q, r := k / n, k % n;
    assert k == q * n + r && 0 <= r < n;
    assert (-q - 1) * n == -(q * n) - n && (q - n) * n == q * n - n * n;
    if q < 0 {
      MulNonneg(-q - 1, n);
    } else if q >= n {
      MulNonneg(q - n, n);
    }
  }

  /** The row-major order lists each cell of the board exactly once. */
  lemma {:induction false} RowMajorCoversBoard(n: nat)
    ensures Distinct(RowMajor(n))
    ensures forall c :: c in RowMajor(n) <==> InRange(c, n)
  {
    var cells := RowMajor(n);
    forall k | 0 <= k < |cells|
      ensures InRange(cells[k], n)
    {
      RowMajorInRange(n, k);
    }
    forall c | InRange(c, n)
      ensures c in cells
    {
      RowMajorIndex(n, c.row, c.col);
    }
    forall i, j | 0 <= i < j < |cells|
      ensures cells[i] != cells[j]
    {
      RowMajorInRange(n, i);
      RowMajorInRange(n, j);
      RowMajorIndex(n, cells[i].row, cells[i].col);
      RowMajorIndex(n, cells[j].row, cells[j].col);
      DivModRowMajor(n, i / n, i % n);
    }
  }

  lemma {:induction false} DistinctCardinality(s: seq<Coord>)
    requires Distinct(s)
    ensures |set c | c in s| == |s|
  {
    if |s| > 0 {
      var rest := s[1..];
      assert Distinct(rest);
      DistinctCardinality(rest);
      assert (set c | c in s) == (set c | c in rest) + {s[0]};
      assert s[0] !in rest;
    }
  }

  /** The board has n * n cells. */
  lemma AllCellsCount(n: nat)
    ensures |AllCells(n)| == n * n
  {
    RowMajorCoversBoard(n);
    assert AllCells(n) == set c | c in RowMajor(n);
    DistinctCardinality(RowMajor(n));
  }
}
