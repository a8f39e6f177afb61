/**
  `_get_state_agent_view`: what the agent sees of the board, either the
  n x n x 2 array itself or its values flattened in row-major (C) order into a
  vector of length 2 * n * n. Flattening loses nothing: the vector cuts back
  into the board.
 */
module Observation {
  import opened Coords
  import opened Board

  /** The observation handed to the agent. */
  datatype View = Stacked(board: State) | Flat(values: seq<int>)

  /** The concatenation of the parts, in order. */
  function Concat(parts: seq<seq<int>>): seq<int>
  {
    if |parts| == 0 then [] else parts[0] + Concat(parts[1..])
  }

  /** v cut into consecutive pieces of length k (the last may be shorter). */
  function Chunks(v: seq<int>, k: nat): seq<seq<int>>
    requires k > 0
    decreases |v|
  {
    if |v| == 0 then []
    else if |v| <= k then [v]
    else [v[..k]] + Chunks(v[k..], k)
  }

  /** Each row of the board flattened on its own. */
  function ConcatRows(s: State): seq<seq<int>>
  {
    seq(|s|, i requires 0 <= i < |s| => Concat(s[i]))
  }

  /** `state.flatten()`: the last index varies fastest. */
  function Flatten(s: State): seq<int>
  {
    Concat(ConcatRows(s))
  }

  /** Cuts a flat vector back into an n x n x 2 board. */
  function Unflatten(v: seq<int>, n: nat): State
    requires n > 0
  {
    var rows := Chunks(v, 2 * n);
    seq(|rows|, i requires 0 <= i < |rows| => Chunks(rows[i], 2))
  }

  lemma {:induction false} ChunksOfConcat(parts: seq<seq<int>>, k: nat)
    requires k > 0
    requires forall i :: 0 <= i < |parts| ==> |parts[i]| == k
    ensures |Concat(parts)| == k * |parts|
    ensures Chunks(Concat(parts), k) == parts
  {
    if |parts| > 0 {
      ChunksOfConcat(parts[1..], k);
      var v := Concat(parts);
      assert v == parts[0] + Concat(parts[1..]);
      assert k * |parts| == k + k * (|parts| - 1);
      if |parts| == 1 {
        assert parts[1..] == [] && v == parts[0];
        assert parts == [parts[0]];
      } else {
        MulNonneg(k, |parts| - 1);
        assert v[..k] == parts[0];
        assert v[k..] == Concat(parts[1..]);
        assert parts == [parts[0]] + parts[1..];
      }
    }
  }

  /**
    Flattening an n x n x 2 board gives 2 * n * n values, and cutting them back
    into rows of 2 * n and cells of 2 restores the board.
   */
  lemma FlattenRoundTrip(s: State, n: nat)
    requires n > 0 && IsState(s, n)
    ensures |Flatten(s)| == 2 * n * n
    ensures Unflatten(Flatten(s), n) == s
  {
    var rows := ConcatRows(s);
    forall i | 0 <= i < n
      ensures |rows[i]| == 2 * n && Chunks(rows[i], 2) == s[i]
    {
      ChunksOfConcat(s[i], 2);
    }
    ChunksOfConcat(rows, 2 * n);
    assert 2 * n * n == (2 * n) * |rows|;
  }

  /** `_get_state_agent_view`. */
  function AgentView(s: State, n: nat, flatten: bool): (v: View)
    requires n > 0 && IsState(s, n)
    ensures v.Flat? <==> flatten
    ensures v.Stacked? ==> v.board == s
    ensures v.Flat? ==> |v.values| == 2 * n * n && Unflatten(v.values, n) == s
  {
    FlattenRoundTrip(s, n);
    if flatten then Flat(Flatten(s)) else Stacked(s)
  }
}
