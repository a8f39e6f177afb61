/**
  The environment's board: an n x n x 2 integer array indexed
  `[row][col][layer]`. Layer 0 holds the colours (0 = empty cell), layer 1 the
  placement marker (1 on the cell to be coloured next, 0 elsewhere). The
  environment keeps the two layers as two n x n grids; `Stack` puts them back
  together into the three-dimensional array.
 */
module Board {
  import opened Coords

  /** One n x n layer of the board. */
  type Grid = seq<seq<int>>

  /** The whole board, `state[row][col][layer]`. */
  type State = seq<seq<seq<int>>>

  /** Layer index of the colours. */
  const ColorLayer := 0
  /** Layer index of the placement marker. */
  const MarkerLayer := 1

  predicate IsGrid(g: Grid, n: int)
  {
    |g| == n && forall i :: 0 <= i < n ==> |g[i]| == n
  }

  predicate IsState(s: State, n: int)
  {
    |s| == n && forall i :: 0 <= i < n ==> |s[i]| == n && forall j :: 0 <= j < n ==> |s[i][j]| == 2
  }

  /** The slice `state[:, :, k]`. */
  function Layer(s: State, k: int): (g: Grid)
    requires IsState(s, |s|) && 0 <= k < 2
    ensures IsGrid(g, |s|)
    ensures forall i, j :: 0 <= i < |s| && 0 <= j < |s| ==> g[i][j] == s[i][j][k]
  {
    seq(|s|, i requires 0 <= i < |s| => seq(|s|, j requires 0 <= j < |s| => s[i][j][k]))
  }

  /** The layers put back together: `state[i][j] == [colours[i][j], marker[i][j]]`. */
  function Stack(colours: Grid, marker: Grid, n: nat): (s: State)
    requires IsGrid(colours, n) && IsGrid(marker, n)
    ensures IsState(s, n)
    ensures Layer(s, ColorLayer) == colours && Layer(s, MarkerLayer) == marker
  {
    var s := seq(n, i requires 0 <= i < n => seq(n, j requires 0 <= j < n => [colours[i][j], marker[i][j]]));
    GridExt(Layer(s, ColorLayer), colours, n);
    GridExt(Layer(s, MarkerLayer), marker, n);
    s
  }

  /** Two grids of the same shape with the same cells are equal. */
  lemma GridExt(g: Grid, h: Grid, n: int)
    requires IsGrid(g, n) && IsGrid(h, n)
    requires forall i, j :: 0 <= i < n && 0 <= j < n ==> g[i][j] == h[i][j]
    ensures g == h
  {
    forall i | 0 <= i < n
      ensures g[i] == h[i]
    {
      assert forall j :: 0 <= j < n ==> g[i][j] == h[i][j];
    }
  }

  /** An all-zero layer. */
  function ZeroGrid(n: nat): (g: Grid)
    ensures IsGrid(g, n)
    ensures forall i, j :: 0 <= i < n && 0 <= j < n ==> g[i][j] == 0
  {
    seq(n, i => seq(n, j => 0))
  }

  /** The grid g with cell c set to v. */
  function GridWrite(g: Grid, c: Coord, v: int): (h: Grid)
    requires IsGrid(g, |g|) && InRange(c, |g|)
    ensures IsGrid(h, |g|)
    ensures h[c.row][c.col] == v
    ensures forall i, j :: 0 <= i < |g| && 0 <= j < |g| && Coord(i, j) != c ==> h[i][j] == g[i][j]
  {
    g[c.row := g[c.row][c.col := v]]
  }

  /** The marker layer with its single 1 at c. */
  function MarkAt(n: nat, c: Coord): (g: Grid)
    requires InRange(c, n)
    ensures IsGrid(g, n)
    ensures forall i, j :: 0 <= i < n && 0 <= j < n ==> g[i][j] == if Coord(i, j) == c then 1 else 0
  {
    GridWrite(ZeroGrid(n), c, 1)
  }

  /** 1 for a nonzero entry, 0 for a zero one. */
  function Nz(v: int): nat
  {
    if v != 0 then 1 else 0
  }

  function RowNonzero(r: seq<int>): nat
  {
    if |r| == 0 then 0 else Nz(r[0]) + RowNonzero(r[1..])
  }

  /** `_num_nonzero`: the number of nonzero entries of a layer. */
  function NumNonzero(g: Grid): nat
  {
    if |g| == 0 then 0 else RowNonzero(g[0]) + NumNonzero(g[1..])
  }

  lemma {:induction false} RowWriteCount(r: seq<int>, j: int, v: int)
    requires 0 <= j < |r|
    ensures RowNonzero(r[j := v]) == RowNonzero(r) - Nz(r[j]) + Nz(v)
  {
    if j > 0 {
      assert r[j := v][1..] == r[1..][j - 1 := v];
      RowWriteCount(r[1..], j - 1, v);
    } else {
      assert r[j := v][1..] == r[1..];
    }
  }

  lemma {:induction false} GridWriteCountRows(g: Grid, i: int, j: int, v: int)
    requires 0 <= i < |g| && 0 <= j < |g[i]|
    ensures NumNonzero(g[i := g[i][j := v]]) == NumNonzero(g) - Nz(g[i][j]) + Nz(v)
  {
    var h := g[i := g[i][j := v]];
    if i > 0 {
      assert h[1..] == g[1..][i - 1 := g[i][j := v]];
      GridWriteCountRows(g[1..], i - 1, j, v);
    } else {
      assert h[1..] == g[1..];
      RowWriteCount(g[0], j, v);
    }
  }

  /** Writing one cell changes the count by exactly what that cell contributes. */
  lemma GridWriteCount(g: Grid, c: Coord, v: int)
    requires IsGrid(g, |g|) && InRange(c, |g|)
    ensures NumNonzero(GridWrite(g, c, v)) == NumNonzero(g) - Nz(g[c.row][c.col]) + Nz(v)
  {
    GridWriteCountRows(g, c.row, c.col, v);
  }

  lemma {:induction false} RowFull(r: seq<int>)
    ensures RowNonzero(r) <= |r|
    ensures RowNonzero(r) == |r| <==> forall j :: 0 <= j < |r| ==> r[j] != 0
  {
    if |r| > 0 {
      RowFull(r[1..]);
      assert forall j :: 1 <= j < |r| ==> r[j] == r[1..][j - 1];
    }
  }

  lemma {:induction false} RowsFull(g: Grid, n: nat)
    requires forall i :: 0 <= i < |g| ==> |g[i]| == n
    ensures NumNonzero(g) <= |g| * n
    ensures NumNonzero(g) == |g| * n <==> forall i, j :: 0 <= i < |g| && 0 <= j < n ==> g[i][j] != 0
  {
    if |g| > 0 {
      RowsFull(g[1..], n);
      RowFull(g[0]);
      assert |g| * n == (|g| - 1) * n + n;
      assert forall i :: 1 <= i < |g| ==> g[i] == g[1..][i - 1];
    }
  }

  /**
    A layer has at most n * n nonzero entries, and exactly n * n of them
    precisely when every entry is nonzero (the board is full).
   */
  lemma CountFull(g: Grid, n: nat)
    requires IsGrid(g, n)
    ensures NumNonzero(g) <= n * n
    ensures NumNonzero(g) == n * n <==> forall i, j :: 0 <= i < n && 0 <= j < n ==> g[i][j] != 0
  {
    RowsFull(g, n);
  }

  lemma {:induction false} ZeroRowsCount(g: Grid)
    requires forall i, j :: 0 <= i < |g| && 0 <= j < |g[i]| ==> g[i][j] == 0
    ensures NumNonzero(g) == 0
  {
    if |g| > 0 {
      var r := g[0];
      assert forall j :: 0 <= j < |r| ==> r[j] == 0;
      ZeroRowCount(r);
      assert forall i :: 1 <= i < |g| ==> g[1..][i - 1] == g[i];
      ZeroRowsCount(g[1..]);
    }
  }

  lemma {:induction false} ZeroRowCount(r: seq<int>)
    requires forall j :: 0 <= j < |r| ==> r[j] == 0
    ensures RowNonzero(r) == 0
  {
    if |r| > 0 {
      ZeroRowCount(r[1..]);
    }
  }

  /** The zero cells of row i from column j on, where r is that part of the row. */
  ghost function RowZeros(r: seq<int>, i: int, j: int): set<Coord>
    decreases |r|
  {
    if |r| == 0 then {} else (if r[0] == 0 then {Coord(i, j)} else {}) + RowZeros(r[1..], i, j + 1)
  }

  lemma {:induction false} RowZerosMember(r: seq<int>, i: int, j: int, c: Coord)
    ensures c in RowZeros(r, i, j) <==> c.row == i && j <= c.col < j + |r| && r[c.col - j] == 0
    decreases |r|
  {
    if |r| > 0 {
      RowZerosMember(r[1..], i, j + 1, c);
    }
  }

  lemma {:induction false} RowZerosCount(r: seq<int>, i: int, j: int)
    ensures |RowZeros(r, i, j)| + RowNonzero(r) == |r|
    decreases |r|
  {
    if |r| > 0 {
      RowZerosCount(r[1..], i, j + 1);
      RowZerosMember(r[1..], i, j + 1, Coord(i, j));
    }
  }

  /** The zero cells of the rows g, the first of which is row i. */
  ghost function GridZeros(g: Grid, i: int): set<Coord>
    decreases |g|
  {
    if |g| == 0 then {} else RowZeros(g[0], i, 0) + GridZeros(g[1..], i + 1)
  }

  lemma {:induction false} GridZerosMember(g: Grid, i: int, n: nat, c: Coord)
    requires forall k :: 0 <= k < |g| ==> |g[k]| == n
    ensures c in GridZeros(g, i) <==> i <= c.row < i + |g| && 0 <= c.col < n && g[c.row - i][c.col] == 0
    decreases |g|
  {
    if |g| > 0 {
      GridZerosMember(g[1..], i + 1, n, c);
      RowZerosMember(g[0], i, 0, c);
      if i < c.row < i + |g| {
        assert g[1..][c.row - (i + 1)] == g[c.row - i];
      }
    }
  }

  lemma {:induction false} GridZerosCount(g: Grid, i: int, n: nat)
    requires forall k :: 0 <= k < |g| ==> |g[k]| == n
    ensures |GridZeros(g, i)| + NumNonzero(g) == |g| * n
    decreases |g|
  {
    if |g| > 0 {
      GridZerosCount(g[1..], i + 1, n);
      RowZerosCount(g[0], i, 0);
      var a, b := RowZeros(g[0], i, 0), GridZeros(g[1..], i + 1);
      forall c | c in a
        ensures c !in b
      {
        RowZerosMember(g[0], i, 0, c);
        GridZerosMember(g[1..], i + 1, n, c);
      }
      assert |a + b| == |a| + |b| by {
        assert a * b == {};
      }
      assert |g| * n == (|g| - 1) * n + n;
    }
  }

  /** The empty cells of a layer. */
  ghost function ZeroCells(g: Grid): set<Coord>
  {
    GridZeros(g, 0)
  }

  /**
    A layer's empty cells are exactly the in-range cells holding 0, and there
    are n * n of them less the nonzero count.
   */
  lemma ZeroCellsCount(g: Grid, n: nat)
    requires IsGrid(g, n)
    ensures |ZeroCells(g)| == n * n - NumNonzero(g)
    ensures forall c :: c in ZeroCells(g) <==> InRange(c, n) && g[c.row][c.col] == 0
  {
    GridZerosCount(g, 0, n);
    forall c
      ensures c in ZeroCells(g) <==> InRange(c, n) && g[c.row][c.col] == 0
    {
      GridZerosMember(g, 0, n, c);
    }
  }

  /** An empty layer counts no entries; a marker layer counts exactly one. */
  lemma MarkerCounts(n: nat, c: Coord)
    requires InRange(c, n)
    ensures NumNonzero(ZeroGrid(n)) == 0
    ensures NumNonzero(MarkAt(n, c)) == 1
  {
    ZeroRowsCount(ZeroGrid(n));
    GridWriteCount(ZeroGrid(n), c, 1);
  }

  /** Clearing the marker's only cell leaves an empty layer. */
  lemma ClearMark(n: nat, c: Coord)
    requires InRange(c, n)
    ensures GridWrite(MarkAt(n, c), c, 0) == ZeroGrid(n)
    ensures GridWrite(ZeroGrid(n), c, 0) == ZeroGrid(n)
  {
    GridExt(GridWrite(MarkAt(n, c), c, 0), ZeroGrid(n), n);
    GridExt(GridWrite(ZeroGrid(n), c, 0), ZeroGrid(n), n);
  }
}
