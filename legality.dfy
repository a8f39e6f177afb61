/**
  `_check_legal_board`: the terminal scan of the colour layer for two adjacent
  cells of the same colour.

  The scan compares each cell (i, j) with i, j < n - 1 against the cell below
  and the cell to its right, then compares the bottom-right corner with the
  cell above it and the cell to its left. For n = 2 that is every adjacent
  pair; for n >= 3 the pairs inside the last row and inside the last column,
  other than the two that touch the corner, are never compared. The model
  keeps that behaviour and proves where it is and is not exact.
 */
module Legality {
  import opened Board

  /** Python's indexing of an axis of length n: index -1 is the last element. */
  function PyIndex(k: int, n: int): (r: int)
    requires -n <= k < n
    ensures 0 <= r < n && (r == k || r == k + n)
  {
    if k < 0 then k + n else k
  }

  /** Cell (i, j) has the colour of the cell below it or of the cell to its right. */
  predicate Clash(g: Grid, n: int, i: int, j: int)
    requires IsGrid(g, n) && 0 <= i < n - 1 && 0 <= j < n - 1
  {
    g[i][j] == g[i + 1][j] || g[i][j] == g[i][j + 1]
  }

  /** The inner loop of the scan, over columns j .. n - 2 of row i. */
  predicate RowClear(g: Grid, n: int, i: int, j: int)
    requires IsGrid(g, n) && 0 <= i < n - 1 && 0 <= j
    decreases n - j
  {
    j >= n - 1 || (!Clash(g, n, i, j) && RowClear(g, n, i, j + 1))
  }

  /** The outer loop of the scan, over rows i .. n - 2. */
  predicate RowsClear(g: Grid, n: int, i: int)
    requires IsGrid(g, n) && 0 <= i
    decreases n - i
  {
    i >= n - 1 || (RowClear(g, n, i, 0) && RowsClear(g, n, i + 1))
  }

  /** The bottom-right cell against `board[n-2, n-1]` and `board[n-1, n-2]`. */
  predicate CornerClear(g: Grid, n: int)
    requires IsGrid(g, n) && n >= 1
  {
    var corner := g[n - 1][n - 1];
    corner != g[PyIndex(n - 2, n)][n - 1] && corner != g[n - 1][PyIndex(n - 2, n)]
  }

  /** `_check_legal_board` applied to the colour layer g. */
  predicate CheckLegalBoard(g: Grid, n: int, disableChecking: bool)
    requires IsGrid(g, n) && n >= 1
  {
    disableChecking || (RowsClear(g, n, 0) && CornerClear(g, n))
  }

  /** No cell of the scanned (n - 1) x (n - 1) block clashes. */
  ghost predicate ScanClear(g: Grid, n: int)
    requires IsGrid(g, n)
  {
    forall i, j :: 0 <= i < n - 1 && 0 <= j < n - 1 ==> !Clash(g, n, i, j)
  }

  /** Cell (i, j) differs from its right-hand neighbour. */
  predicate RightDiffers(g: Grid, n: int, i: int, j: int)
    requires IsGrid(g, n) && 0 <= i < n && 0 <= j < n - 1
  {
    g[i][j] != g[i][j + 1]
  }

  /** Cell (i, j) differs from the cell below it. */
  predicate BelowDiffers(g: Grid, n: int, i: int, j: int)
    requires IsGrid(g, n) && 0 <= i < n - 1 && 0 <= j < n
  {
    g[i][j] != g[i + 1][j]
  }

  /** No two horizontally or vertically adjacent cells share a colour. */
  ghost predicate ProperlyColoured(g: Grid, n: int)
    requires IsGrid(g, n)
  {
    (forall i, j :: 0 <= i < n && 0 <= j < n - 1 ==> RightDiffers(g, n, i, j)) &&
    (forall i, j :: 0 <= i < n - 1 && 0 <= j < n ==> BelowDiffers(g, n, i, j))
  }

  lemma {:induction false} RowClearSpec(g: Grid, n: int, i: int, j: int)
    requires IsGrid(g, n) && 0 <= i < n - 1 && 0 <= j
    ensures RowClear(g, n, i, j) <==> forall k :: j <= k < n - 1 ==> !Clash(g, n, i, k)
    decreases n - j
  {
    if j < n - 1 {
      RowClearSpec(g, n, i, j + 1);
    }
  }

  lemma {:induction false} RowsClearSpec(g: Grid, n: int, i: int)
    requires IsGrid(g, n) && 0 <= i
    ensures RowsClear(g, n, i) <==> forall r, k :: i <= r < n - 1 && 0 <= k < n - 1 ==> !Clash(g, n, r, k)
    decreases n - i
  {
    if i < n - 1 {
      RowClearSpec(g, n, i, 0);
      RowsClearSpec(g, n, i + 1);
    }
  }

  /**
    What the scan decides: with checking on, the board is accepted exactly when
    no cell of the (n - 1) x (n - 1) block clashes and the corner differs from
    its two neighbours; with checking off every board is accepted. A 1 x 1
    board compares its only cell with itself and is always rejected.
   */
  lemma CheckLegalBoardSpec(g: Grid, n: int, disableChecking: bool)
    requires IsGrid(g, n) && n >= 1
    ensures CheckLegalBoard(g, n, disableChecking) <==> disableChecking || (ScanClear(g, n) && CornerClear(g, n))
    ensures n == 1 ==> (CheckLegalBoard(g, n, disableChecking) <==> disableChecking)
  {
    RowsClearSpec(g, n, 0);
  }

  /** Every properly coloured board of side at least 2 is accepted. */
  lemma ProperBoardAccepted(g: Grid, n: int, disableChecking: bool)
    requires IsGrid(g, n) && n >= 2
    requires ProperlyColoured(g, n)
    ensures CheckLegalBoard(g, n, disableChecking)
  {
    forall i, j | 0 <= i < n - 1 && 0 <= j < n - 1
      ensures !Clash(g, n, i, j)
    {
      assert BelowDiffers(g, n, i, j) && RightDiffers(g, n, i, j);
    }
    assert BelowDiffers(g, n, n - 2, n - 1) && RightDiffers(g, n, n - 1, n - 2);
    CheckLegalBoardSpec(g, n, disableChecking);
  }

  /** On a 2 x 2 board the scan is exact: it accepts precisely the proper colourings. */
  lemma TwoByTwoExact(g: Grid)
    requires IsGrid(g, 2)
    ensures CheckLegalBoard(g, 2, false) <==> ProperlyColoured(g, 2)
  {
    CheckLegalBoardSpec(g, 2, false);
    if ProperlyColoured(g, 2) {
      ProperBoardAccepted(g, 2, false);
    }
  }

  /** A checkerboard of colours 1 and 2. */
  function Checkerboard(n: nat): (g: Grid)
    ensures IsGrid(g, n)
    ensures forall i, j :: 0 <= i < n && 0 <= j < n ==> g[i][j] == (i + j) % 2 + 1
  {
    seq(n, i => seq(n, j => (i + j) % 2 + 1))
  }

  /**
    For every n >= 3 the scan accepts a board whose last row starts with two
    cells of the same colour: the checkerboard with both painted colour 3.
   */
  lemma LastRowPairMissed(n: int)
    requires n >= 3
    ensures var g := Checkerboard(n)[n - 1 := Checkerboard(n)[n - 1][0 := 3][1 := 3]];
            IsGrid(g, n) && CheckLegalBoard(g, n, false) && !ProperlyColoured(g, n)
  {
    var c := Checkerboard(n);
    var g := c[n - 1 := c[n - 1][0 := 3][1 := 3]];
    assert IsGrid(g, n);
    CheckLegalBoardSpec(g, n, false);
    assert !RightDiffers(g, n, n - 1, 0);
  }

  /**
    For every n >= 3 the scan accepts a board whose last column starts with two
    cells of the same colour.
   */
  lemma LastColumnPairMissed(n: int)
    requires n >= 3
    ensures var g := Checkerboard(n)[0 := Checkerboard(n)[0][n - 1 := 3]][1 := Checkerboard(n)[1][n - 1 := 3]];
            IsGrid(g, n) && CheckLegalBoard(g, n, false) && !ProperlyColoured(g, n)
  {
    var c := Checkerboard(n);
    var g := c[0 := c[0][n - 1 := 3]][1 := c[1][n - 1 := 3]];
    assert IsGrid(g, n);
    CheckLegalBoardSpec(g, n, false);
    assert !BelowDiffers(g, n, 0, n - 1);
  }
}
