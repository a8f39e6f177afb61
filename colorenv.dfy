/**
  The `ColorEnv` episode controller: an agent colours the cells of an n x n
  board one per step, in row-major order or in an arbitrary order drawn from
  a set, and the step that fills the last cell is rewarded by the legality
  scan of the finished board.
 */
module ColorEnvironment {
  import opened Coords
  import opened Board
  import opened Pool
  import opened Legality
  import opened Observation

  /** Every colour cell is empty (0) or holds a colour in 1 .. numColors. */
  ghost predicate ColoursInRange(g: Grid, n: int, numColors: int)
    requires IsGrid(g, n)
  {
    forall i, j :: 0 <= i < n && 0 <= j < n ==> g[i][j] == 0 || 1 <= g[i][j] <= numColors
  }

  /**
    The invariant every reachable environment keeps, over the fields of one
    environment: both layers are n x n; the pool holds in-range, empty cells
    other than the target; the counter counts the coloured cells; a finished
    episode has a full board, an empty pool and no marker; an active one has an
    empty target, n * n = counter + pool size + 1 and a marker on the target,
    except right after `reset`, which leaves the marker layer empty; with
    ordered placement the target is the counter-th cell in row-major order and
    the pool is the rest of that order.
   */
  ghost predicate Inv(n: int, numColors: int, ordered: bool, board: Grid, marker: Grid,
                      pool: FreeCoords, loc: Coord, counter: int, done: bool)
  {
    n > 0 && IsGrid(board, n) && IsGrid(marker, n) && InRange(loc, n) &&
    (pool.Queue? <==> ordered) && pool.WellFormed() &&
    (forall c :: pool.Contains(c) ==> InRange(c, n) && c != loc && board[c.row][c.col] == 0) &&
    ColoursInRange(board, n, numColors) &&
    counter == NumNonzero(board) &&
    (done ==> counter == n * n && pool.Size() == 0 && marker == ZeroGrid(n)) &&
    (!done ==>
       counter + pool.Size() + 1 == n * n && board[loc.row][loc.col] == 0 &&
       (marker == MarkAt(n, loc) || (counter == 0 && marker == ZeroGrid(n)))) &&
    (ordered && !done ==>
       loc == RowMajor(n)[counter] && pool.items == RowMajor(n)[counter + 1..])
  }

  /** `_check_rep`: the assertions the source makes about its own state. */
  predicate Rep(n: int, board: Grid, marker: Grid, pool: FreeCoords, counter: int, done: bool)
  {
    n > 0 && IsGrid(board, n) && IsGrid(marker, n) &&
    if done then
      pool.Size() == 0 && NumNonzero(board) == n * n && counter == n * n
    else
      NumNonzero(board) != n * n && NumNonzero(board) == counter && NumNonzero(marker) == 1
  }

  /**
    A state that keeps the invariant passes `_check_rep` unless it is active
    with an empty marker layer, which happens only right after `reset`.
   */
  lemma RepIff(n: int, numColors: int, ordered: bool, board: Grid, marker: Grid,
               pool: FreeCoords, loc: Coord, counter: int, done: bool)
    requires Inv(n, numColors, ordered, board, marker, pool, loc, counter, done)
    ensures Rep(n, board, marker, pool, counter, done) <==> done || marker == MarkAt(n, loc)
  {
    MarkerCounts(n, loc);
  }

  /**
    A fresh episode: an empty board, the first cell taken from the full pool,
    and either the marker on it (construction) or no marker (reset).
   */
  lemma InitialInv(n: int, numColors: int, ordered: bool, loc: Coord, pool: FreeCoords)
    requires n > 0 && Took(FullPool(n, ordered), loc, pool)
    ensures Inv(n, numColors, ordered, ZeroGrid(n), ZeroGrid(n), pool, loc, 0, false)
    ensures Inv(n, numColors, ordered, ZeroGrid(n), MarkAt(n, loc), pool, loc, 0, false)
    ensures Rep(n, ZeroGrid(n), MarkAt(n, loc), pool, 0, false)
    ensures !Rep(n, ZeroGrid(n), ZeroGrid(n), pool, 0, false)
  {
    TookOne(FullPool(n, ordered), loc, pool);
    ZeroRowsCount(ZeroGrid(n));
    MarkerCounts(n, loc);
  }

  /**
    Colouring the last empty cell with a valid colour and clearing its marker
    ends the episode and keeps the invariant.
   */
  lemma FinalPlacementInv(n: int, numColors: int, ordered: bool, board: Grid, marker: Grid,
                          pool: FreeCoords, loc: Coord, counter: int, color: int)
    requires Inv(n, numColors, ordered, board, marker, pool, loc, counter, false)
    requires 1 <= color <= numColors && counter + 1 == n * n
    ensures Inv(n, numColors, ordered, GridWrite(board, loc, color), GridWrite(marker, loc, 0),
                pool, loc, counter + 1, true)
    ensures Rep(n, GridWrite(board, loc, color), GridWrite(marker, loc, 0), pool, counter + 1, true)
  {
    GridWriteCount(board, loc, color);
    ClearMark(n, loc);
  }

  /**
    Colouring an empty cell with a valid colour while cells remain, then moving
    the marker to a cell taken from the pool, keeps the invariant.
   */
  lemma PlacementInv(n: int, numColors: int, ordered: bool, board: Grid, marker: Grid,
                     pool: FreeCoords, loc: Coord, counter: int, color: int,
                     next: Coord, rest: FreeCoords)
    requires Inv(n, numColors, ordered, board, marker, pool, loc, counter, false)
    requires 1 <= color <= numColors && counter + 1 != n * n
    requires Took(pool, next, rest)
    ensures Inv(n, numColors, ordered, GridWrite(board, loc, color),
                GridWrite(GridWrite(marker, loc, 0), next, 1), rest, next, counter + 1, false)
    ensures Rep(n, GridWrite(board, loc, color), GridWrite(GridWrite(marker, loc, 0), next, 1),
                rest, counter + 1, false)
  {
    var board' := GridWrite(board, loc, color);
    GridWriteCount(board, loc, color);
    ClearMark(n, loc);
    TookOne(pool, next, rest);
    forall c | rest.Contains(c)
      ensures InRange(c, n) && c != next && board'[c.row][c.col] == 0
    {
      assert pool.Contains(c) && c != loc;
    }
    if ordered {
      assert rest.items == RowMajor(n)[counter + 2..];
    }
    MarkerCounts(n, next);
  }

  /**
    In an active episode the pool holds every empty cell other than the
    target: together with the target, the pool is exactly the set of
    uncoloured cells.
   */
  lemma PoolHoldsEveryEmptyCell(n: int, numColors: int, ordered: bool, board: Grid, marker: Grid,
                                pool: FreeCoords, loc: Coord, counter: int)
    requires Inv(n, numColors, ordered, board, marker, pool, loc, counter, false)
    ensures forall c :: InRange(c, n) && c != loc && board[c.row][c.col] == 0 ==> pool.Contains(c)
  {
    ZeroCellsCount(board, n);
    MembersSize(pool);
    var others := ZeroCells(board) - {loc};
    var held := pool.Members();
    assert held <= others;
    assert |others| == |held|;
    SubsetOfSameSize(held, others);
  }

  /** A subset as large as its superset is the whole superset. */
  lemma SubsetOfSameSize(a: set<Coord>, b: set<Coord>)
    requires a <= b && |a| == |b|
    ensures a == b
  {
    assert |b - a| == |b| - |a|;
  }

  class ColorEnv {
    /** Side length of the board. */
    const n: int
    /** Number of colours; the agent's action a stands for colour a + 1. */
    const numColors: int
    /** Reward 1 for each colour-1 placement and -100 for an illegal final board. */
    const maximizeRed: bool
    /** Hand out cells in row-major order instead of an arbitrary order. */
    const orderedPlacement: bool
    /** Treat every final board as legal. */
    const disableChecking: bool
    /** Hand the agent the flattened board. */
    const flatten: bool

    /** Layer 0 of the board, `state[:, :, 0]`: the colours, 0 for an empty cell. */
    var board: Grid
    /** Layer 1 of the board, `state[:, :, 1]`: the placement marker. */
    var marker: Grid
    /** The cells neither coloured nor targeted. */
    var freeCoords: FreeCoords
    /** The cell the next accepted action colours. */
    var currentLoc: Coord
    /** The number of cells coloured so far. */
    var counter: int
    /** Whether the last cell has been coloured. */
    var done: bool

    /** The invariant `Inv` of this environment's fields. */
    ghost predicate Valid()
      reads this
    {
      Inv(n, numColors, orderedPlacement, board, marker, freeCoords, currentLoc, counter, done)
    }

    /** The source's `state` array, `state[i][j] == [board[i][j], marker[i][j]]`. */
    function State(): State
      reads this
      requires n >= 0 && IsGrid(board, n) && IsGrid(marker, n)
    {
      Stack(board, marker, n)
    }

    /** `_get_state_agent_view`. */
    function View(): View
      reads this
      requires n > 0 && IsGrid(board, n) && IsGrid(marker, n)
    {
      AgentView(State(), n, flatten)
    }

    /** `_check_rep` of this environment. */
    predicate CheckRep()
      reads this
    {
      Rep(n, board, marker, freeCoords, counter, done)
    }

    /** The board is full exactly when the episode is over. */
    lemma FullIffDone()
      requires Valid()
      ensures done <==> forall i, j :: 0 <= i < n && 0 <= j < n ==> board[i][j] != 0
    {
      CountFull(board, n);
    }

    /**
      While the episode runs, the pool is exactly the uncoloured cells other
      than the target.
     */
    lemma PoolIsEmptyCells()
      requires Valid() && !done
      ensures forall c :: freeCoords.Contains(c) <==>
        InRange(c, n) && c != currentLoc && board[c.row][c.col] == 0
    {
      PoolHoldsEveryEmptyCell(n, numColors, orderedPlacement, board, marker, freeCoords, currentLoc, counter);
    }

    /**
      `__init__`, with the configuration passed in rather than read from a
      YAML file. The first target is drawn and marked.
     */
    constructor (n: int, numColors: int, maximizeRed: bool, orderedPlacement: bool,
                 disableChecking: bool, flatten: bool)
      requires n > 0
      ensures this.n == n && this.numColors == numColors && this.maximizeRed == maximizeRed
      ensures this.orderedPlacement == orderedPlacement && this.disableChecking == disableChecking
      ensures this.flatten == flatten
      ensures Valid() && CheckRep()
      ensures !done && counter == 0
      ensures Took(FullPool(n, orderedPlacement), currentLoc, freeCoords)
      ensures board == ZeroGrid(n) && marker == MarkAt(n, currentLoc)
    {
      this.n := n;
      this.numColors := numColors;
      this.maximizeRed := maximizeRed;
      this.orderedPlacement := orderedPlacement;
      this.disableChecking := disableChecking;
      this.flatten := flatten;
      new;
      freeCoords := NewFreeCoords(n, orderedPlacement);
      board, marker := ZeroGrid(n), ZeroGrid(n);
      counter := 0;
      done := false;
      FirstLocation();
      marker := GridWrite(marker, currentLoc, 1);
      InitialInv(n, numColors, orderedPlacement, currentLoc, freeCoords);
    }

    /** `_first_location`: take the first target out of the pool. */
    method FirstLocation()
      requires freeCoords.Size() > 0
      modifies this`currentLoc, this`freeCoords
      ensures Took(old(freeCoords), currentLoc, freeCoords)
    {
      currentLoc, freeCoords := Take(freeCoords);
    }

    /**
      `_get_next_location`: take the next target out of the pool, clear the
      marker at the old target and set it at the new one.
     */
    method GetNextLocation()
      requires IsGrid(marker, n) && InRange(currentLoc, n) && freeCoords.Size() > 0
      requires forall c :: freeCoords.Contains(c) ==> InRange(c, n)
      modifies this`currentLoc, this`freeCoords, this`marker
      ensures Took(old(freeCoords), currentLoc, freeCoords) && InRange(currentLoc, n)
      ensures marker == GridWrite(GridWrite(old(marker), old(currentLoc), 0), currentLoc, 1)
    {
      var newLoc, rest := Take(freeCoords);
      assert freeCoords.Contains(newLoc);
      freeCoords := rest;
      marker := GridWrite(marker, currentLoc, 0);
      currentLoc := newLoc;
      marker := GridWrite(marker, currentLoc, 1);
    }

    /**
      `step`: colour the current target with colour action + 1.

      An action outside the colour range is penalised with -1 and changes
      nothing; this test comes first, so it applies after the end as well. A
      valid action after the end earns 0 and changes nothing. Otherwise the
      target is coloured and counted: the move that colours the last cell ends
      the episode, clears the marker and is rewarded by the legality scan (1
      for a legal board, otherwise -100 when maximizeRed is set and 0 when
      not); any other move takes the next target from the pool and earns 1 for
      colour 1 when maximizeRed is set, 0 otherwise.
     */
    method Step(action: int) returns (obs: View, reward: int, isDone: bool)
      requires Valid()
      modifies this
      ensures Valid()
      ensures obs == View() && isDone == done
      ensures !(1 <= action + 1 <= numColors) ==> reward == -1 && unchanged(this)
      ensures 1 <= action + 1 <= numColors && old(done) ==> reward == 0 && done && unchanged(this)
      ensures 1 <= action + 1 <= numColors && !old(done) ==>
        counter == old(counter) + 1 && board == GridWrite(old(board), old(currentLoc), action + 1) &&
        (done <==> counter == n * n)
      ensures 1 <= action + 1 <= numColors && !old(done) && done ==>
        marker == GridWrite(old(marker), old(currentLoc), 0) &&
        freeCoords == old(freeCoords) && currentLoc == old(currentLoc) &&
        reward == (if CheckLegalBoard(board, n, disableChecking) then 1
                   else if maximizeRed then -100 else 0)
      ensures 1 <= action + 1 <= numColors && !old(done) && !done ==>
        marker == GridWrite(GridWrite(old(marker), old(currentLoc), 0), currentLoc, 1) &&
        Took(old(freeCoords), currentLoc, freeCoords) &&
        reward == (if maximizeRed && action + 1 == 1 then 1 else 0)
      ensures CheckRep() <==> old(CheckRep()) || (1 <= action + 1 <= numColors && !old(done))
    {
      var color := action + 1;
      if color > numColors || color <= 0 {
        reward := -1;
      } else if done {
        reward := 0;
      } else if counter + 1 == n * n {
        reward := PlaceLast(color);
      } else {
        reward := PlaceAndAdvance(color);
      }
      obs, isDone := View(), done;
    }

    /** The move that colours the last empty cell and ends the episode. */
    method PlaceLast(color: int) returns (reward: int)
      requires Valid() && !done && 1 <= color <= numColors && counter + 1 == n * n
      modifies this`board, this`marker, this`counter, this`done
      ensures Valid() && CheckRep() && done
      ensures counter == old(counter) + 1 && board == GridWrite(old(board), old(currentLoc), color)
      ensures marker == GridWrite(old(marker), currentLoc, 0)
      ensures reward == (if CheckLegalBoard(board, n, disableChecking) then 1
                         else if maximizeRed then -100 else 0)
    {
      FinalPlacementInv(n, numColors, orderedPlacement, board, marker, freeCoords, currentLoc, counter, color);
      counter := counter + 1;
      board := GridWrite(board, currentLoc, color);
      reward := if maximizeRed && color == 1 then 1 else 0;
      done := true;
      marker := GridWrite(marker, currentLoc, 0);
      if CheckLegalBoard(board, n, disableChecking) {
        reward := 1;
      } else {
        reward := if maximizeRed then -100 else 0;
      }
    }

    /** A move that leaves empty cells: colour the target, then take the next one. */
    method PlaceAndAdvance(color: int) returns (reward: int)
      requires Valid() && !done && 1 <= color <= numColors && counter + 1 != n * n
      modifies this`board, this`marker, this`freeCoords, this`currentLoc, this`counter
      ensures Valid() && CheckRep() && !done
      ensures counter == old(counter) + 1 && board == GridWrite(old(board), old(currentLoc), color)
      ensures marker == GridWrite(GridWrite(old(marker), old(currentLoc), 0), currentLoc, 1)
      ensures Took(old(freeCoords), currentLoc, freeCoords)
      ensures reward == (if maximizeRed && color == 1 then 1 else 0)
    {
      ghost var board0, marker0, pool0, counter0, loc0 := board, marker, freeCoords, counter, currentLoc;
      assert Inv(n, numColors, orderedPlacement, board0, marker0, pool0, loc0, counter0, false);
      counter := counter + 1;
      board := GridWrite(board, currentLoc, color);
      reward := if maximizeRed && color == 1 then 1 else 0;
      GetNextLocation();
      PlacementInv(n, numColors, orderedPlacement, board0, marker0, pool0, loc0, counter0, color,
                   currentLoc, freeCoords);
    }

    /**
      `reset`: a fresh pool, an empty board, a zero counter and a new target.
      The source does not mark the new target, so the marker layer stays empty
      and `_check_rep` would fail until the next accepted action.
     */
    method Reset() returns (obs: View)
      requires n > 0
      modifies this
      ensures Valid() && !done && counter == 0
      ensures Took(FullPool(n, orderedPlacement), currentLoc, freeCoords)
      ensures board == ZeroGrid(n) && marker == ZeroGrid(n)
      ensures !CheckRep()
      ensures obs == View()
    {
      freeCoords := NewFreeCoords(n, orderedPlacement);
      board, marker := ZeroGrid(n), ZeroGrid(n);
      counter := 0;
      done := false;
      FirstLocation();
      InitialInv(n, numColors, orderedPlacement, currentLoc, freeCoords);
      obs := View();
    }
  }
}
