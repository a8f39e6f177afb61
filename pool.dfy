/**
  The free-coordinate pool: the cells that are neither coloured nor the
  current target. With ordered placement it is a list consumed from the front
  (`pop(0)`); otherwise it is a set from which `random.choice` draws any
  element, modelled here as an arbitrary choice.
 */
module Pool {
  import opened Coords

  datatype FreeCoords = Queue(items: seq<Coord>) | Bag(cells: set<Coord>)
  {
    /** `len(free_coords)`. */
    function Size(): nat
    {
      if Queue? then |items| else |cells|
    }

    predicate Contains(c: Coord)
    {
      if Queue? then c in items else c in cells
    }

    /** The cells the pool holds, whatever its kind. */
    function Members(): (m: set<Coord>)
      ensures forall c :: c in m <==> Contains(c)
    {
      if Queue? then set c | c in items else cells
    }

    /** A list never holds the same cell twice. */
    predicate WellFormed()
    {
      Queue? ==> Distinct(items)
    }
  }

  /** A pool without duplicates holds as many cells as its length says. */
  lemma MembersSize(p: FreeCoords)
    requires p.WellFormed()
    ensures |p.Members()| == p.Size()
  {
    if p.Queue? {
      DistinctCardinality(p.items);
    }
  }

  /**
    What `_new_free_coords` builds: every cell of the board, as a row-major
    list when placement is ordered and as a set otherwise.
   */
  function FullPool(n: nat, ordered: bool): (p: FreeCoords)
    ensures p.Queue? <==> ordered
    ensures p.WellFormed() && p.Size() == n * n
    ensures forall c :: p.Contains(c) <==> InRange(c, n)
  {
    RowMajorCoversBoard(n);
    AllCellsCount(n);
    if ordered then Queue(RowMajor(n)) else Bag(AllCells(n))
  }

  /** `_new_free_coords`, with the nested loops of the source. */
  method NewFreeCoords(n: nat, ordered: bool) returns (pool: FreeCoords)
    ensures pool == FullPool(n, ordered)
  {
    if ordered {
      var coords: seq<Coord> := [];
      for i := 0 to n
        invariant i * n <= n * n
        invariant coords == RowMajor(n)[..i * n]
      {
        for j := 0 to n
          invariant i * n + j <= n * n
          invariant coords == RowMajor(n)[..i * n + j]
        {
          RowMajorIndex(n, i, j);
          coords := coords + [Coord(i, j)];
        }
        assert (i + 1) * n == i * n + n;
      }
      pool := Queue(coords);
    } else {
      var cells: set<Coord> := {};
      for i := 0 to n
        invariant forall c :: c in cells <==> InRange(c, n) && c.row < i
      {
        for j := 0 to n
          invariant forall c :: c in cells <==> InRange(c, n) && (c.row < i || (c.row == i && c.col < j))
        {
          cells := cells + {Coord(i, j)};
        }
      }
      pool := Bag(cells);
    }
  }

  /**
    The coordinate handed out and the pool left behind: the head of the list,
    or any member of the set, removed.
   */
  predicate Took(p: FreeCoords, c: Coord, rest: FreeCoords)
  {
    match p
    case Queue(items) => |items| > 0 && c == items[0] && rest == Queue(items[1..])
    case Bag(cells) => c in cells && rest == Bag(cells - {c})
  }

  /**
    Taking a coordinate removes exactly that one coordinate, and it is one the
    pool held; the pool keeps its kind and stays free of duplicates.
   */
  lemma TookOne(p: FreeCoords, c: Coord, rest: FreeCoords)
    requires p.WellFormed() && Took(p, c, rest)
    ensures p.Contains(c) && rest.Size() == p.Size() - 1
    ensures forall d :: rest.Contains(d) <==> p.Contains(d) && d != c
    ensures rest.Queue? == p.Queue? && rest.WellFormed()
  {
    if p.Queue? {
      var s := p.items;
      forall d
        ensures rest.Contains(d) <==> p.Contains(d) && d != c
      {
        if d in s[1..] {
          var k :| 1 <= k < |s| && s[k] == d;
          assert s[0] != s[k];
        }
        if d in s && d != c {
          var k :| 0 <= k < |s| && s[k] == d;
          assert s[1..][k - 1] == d;
        }
      }
    }
  }

  /** The pool step of `_first_location` and `_get_next_location`. */
  method Take(p: FreeCoords) returns (c: Coord, rest: FreeCoords)
    requires p.Size() > 0
    ensures Took(p, c, rest)
  {
    match p
    case Queue(items) =>
      c := items[0];
      rest := Queue(items[1..]);
    case Bag(cells) =>
      c :| c in cells;
      rest := Bag(cells - {c});
  }
}
