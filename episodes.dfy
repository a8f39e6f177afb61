/**
  Whole episodes driven through `step`: an agent that plays one valid colour
  per cell colours every cell exactly once, in row-major order when placement
  is ordered, and two concrete 2 x 2 episodes with the reward each step earns.
 */
module Episodes {
  import opened Coords
  import opened Board
  import opened Legality
  import opened ColorEnvironment

  /** Every action names a colour of the environment. */
  predicate ValidActions(actions: seq<int>, numColors: int)
  {
    forall k :: 0 <= k < |actions| ==> 0 <= actions[k] < numColors
  }

  /**
    The first |targets| actions have coloured the cells in targets, one each:
    every target is on the board and holds the colour its action names.
   */
  ghost predicate Painted(board: Grid, n: int, targets: seq<Coord>, actions: seq<int>)
  {
    IsGrid(board, n) && |targets| <= |actions| &&
    forall m :: 0 <= m < |targets| ==>
      InRange(targets[m], n) && board[targets[m].row][targets[m].col] == actions[m] + 1
  }

  /**
    Colouring an empty cell with the next action's colour extends the record
    by that cell, and the cell is new, since every earlier target is coloured.
   */
  lemma PaintedStep(board: Grid, n: int, targets: seq<Coord>, actions: seq<int>, numColors: int, loc: Coord)
    requires Painted(board, n, targets, actions) && Distinct(targets) && ValidActions(actions, numColors)
    requires |targets| < |actions| && InRange(loc, n) && board[loc.row][loc.col] == 0
    ensures Painted(GridWrite(board, loc, actions[|targets|] + 1), n, targets + [loc], actions)
    ensures Distinct(targets + [loc])
  {
    var k := |targets|;
    var board' := GridWrite(board, loc, actions[k] + 1);
    var targets' := targets + [loc];
    forall m | 0 <= m < k
      ensures targets[m] != loc && board'[targets[m].row][targets[m].col] == actions[m] + 1
    {
      assert board[targets[m].row][targets[m].col] == actions[m] + 1;
    }
    assert forall m :: 0 <= m < k ==> targets'[m] == targets[m];
  }

  /**
    The state of an episode after |targets| of the actions: the environment is
    valid, there is one action per cell, the environment has counted one cell
    per action played and ends exactly when every action has been played; the targets are distinct cells holding the
    colours played, and in row-major order when placement is ordered.
   */
  ghost predicate Progress(env: ColorEnv, actions: seq<int>, targets: seq<Coord>)
    reads env
  {
    var k := |targets|;
    k <= |actions| == env.n * env.n && env.Valid() && env.counter == k && (env.done <==> k == |actions|) &&
    (k > 0 ==> env.CheckRep()) &&
    Painted(env.board, env.n, targets, actions) && Distinct(targets) &&
    (env.orderedPlacement ==> targets == RowMajor(env.n)[..k])
  }

  /** One step of `PlayEpisode`: play the next action and record its target. */
  method PlayNext(env: ColorEnv, actions: seq<int>, targets: seq<Coord>) returns (targets': seq<Coord>, reward: int)
    requires Progress(env, actions, targets) && |targets| < |actions|
    requires ValidActions(actions, env.numColors)
    modifies env
    ensures Progress(env, actions, targets') && targets' == targets + [old(env.currentLoc)]
  {
    var loc := env.currentLoc;
    PaintedStep(env.board, env.n, targets, actions, env.numColors, loc);
    var obs, isDone;
    obs, reward, isDone := env.Step(actions[|targets|]);
    targets' := targets + [loc];
  }

  /**
    Plays one action per cell from the start of an episode. Each step colours
    the cell that was its target; the targets are n * n distinct cells, they
    come in row-major order when placement is ordered, only the last step ends
    the episode, and the finished board holds the colours played.
   */
  method PlayEpisode(env: ColorEnv, actions: seq<int>) returns (targets: seq<Coord>, rewards: seq<int>)
    requires env.Valid() && !env.done && env.counter == 0
    requires |actions| == env.n * env.n && ValidActions(actions, env.numColors)
    modifies env
    ensures env.Valid() && env.done && env.CheckRep()
    ensures |targets| == env.n * env.n && |rewards| == env.n * env.n && Distinct(targets)
    ensures Painted(env.board, env.n, targets, actions)
    ensures env.orderedPlacement ==> targets == RowMajor(env.n)
  {
    targets, rewards := [], [];
    while |targets| < |actions|
      invariant Progress(env, actions, targets) && |rewards| == |targets|
      decreases |actions| - |targets|
    {
      var reward;
      targets, reward := PlayNext(env, actions, targets);
      rewards := rewards + [reward];
    }
  }

  /** The row-major order of the 2 x 2 board. */
  lemma RowMajorTwo()
    ensures RowMajor(2) == [Coord(0, 0), Coord(0, 1), Coord(1, 0), Coord(1, 1)]
  {
    RowMajorIndex(2, 0, 0);
    RowMajorIndex(2, 0, 1);
    RowMajorIndex(2, 1, 0);
    RowMajorIndex(2, 1, 1);
  }

  /** Writing one cell of a 2 x 2 board given by its four entries. */
  lemma WriteTwoByTwo(x00: int, x01: int, x10: int, x11: int, c: Coord, v: int)
    requires InRange(c, 2)
    ensures GridWrite([[x00, x01], [x10, x11]], c, v) ==
      if c == Coord(0, 0) then [[v, x01], [x10, x11]]
      else if c == Coord(0, 1) then [[x00, v], [x10, x11]]
      else if c == Coord(1, 0) then [[x00, x01], [v, x11]]
      else [[x00, x01], [x10, v]]
  {
    var h := GridWrite([[x00, x01], [x10, x11]], c, v);
    assert h[0] == [h[0][0], h[0][1]] && h[1] == [h[1][0], h[1][1]];
  }

  /** The reward of a move that does not end a red-maximising episode. */
  function RedReward(action: int): int
  {
    if action == 0 then 1 else 0
  }

  /** The 2 x 2, two-colour, red-maximising, ordered, checked configuration. */
  ghost predicate RedTwoByTwo(env: ColorEnv)
    reads env
  {
    env.Valid() && env.n == 2 && env.numColors == 2 && env.maximizeRed &&
    env.orderedPlacement && !env.disableChecking
  }

  /**
    A move of that configuration before the last one: it colours the target,
    earns 1 for red and 0 for blue, and moves on to the next cell in row-major
    order.
   */
  method RedMove(env: ColorEnv, a: int) returns (reward: int)
    requires RedTwoByTwo(env) && !env.done && env.counter < 3 && 0 <= a < 2
    modifies env
    ensures RedTwoByTwo(env) && !env.done && env.counter == old(env.counter) + 1
    ensures env.board == GridWrite(old(env.board), old(env.currentLoc), a + 1)
    ensures env.currentLoc == RowMajor(2)[env.counter]
    ensures reward == RedReward(a)
  {
    var obs, isDone;
    obs, reward, isDone := env.Step(a);
  }

  /** A fresh environment of that configuration, with the first cell targeted. */
  method NewRedEnv() returns (env: ColorEnv)
    ensures fresh(env) && RedTwoByTwo(env) && !env.done && env.counter == 0
    ensures env.board == [[0, 0], [0, 0]] && env.currentLoc == RowMajor(2)[0]
  {
    env := new ColorEnv(2, 2, true, true, false, false);
    assert ZeroGrid(2) == [[0, 0], [0, 0]] by {
      assert ZeroGrid(2)[0] == [0, 0] && ZeroGrid(2)[1] == [0, 0];
    }
  }

  /** The last move of that configuration: 1 for a legal board, -100 otherwise. */
  method RedLastMove(env: ColorEnv, a: int) returns (reward: int)
    requires RedTwoByTwo(env) && !env.done && env.counter == 3 && 0 <= a < 2
    modifies env
    ensures env.done && env.board == GridWrite(old(env.board), old(env.currentLoc), a + 1)
    ensures reward == if CheckLegalBoard(env.board, 2, false) then 1 else -100
  {
    var obs, isDone;
    obs, reward, isDone := env.Step(a);
  }

  /**
    A 2 x 2 episode with two colours, red maximised, ordered placement and
    checking on: the four actions colour the cells in row-major order, each of
    the first three earns 1 for red and 0 for blue, and the last earns 1 for a
    legal board and -100 for an illegal one.
   */
  method RedEpisode(a0: int, a1: int, a2: int, a3: int) returns (rewards: seq<int>, board: Grid)
    requires 0 <= a0 < 2 && 0 <= a1 < 2 && 0 <= a2 < 2 && 0 <= a3 < 2
    ensures board == [[a0 + 1, a1 + 1], [a2 + 1, a3 + 1]]
    ensures rewards == [RedReward(a0), RedReward(a1), RedReward(a2),
                        if CheckLegalBoard(board, 2, false) then 1 else -100]
  {
    var env := NewRedEnv();
    RowMajorTwo();
    var r0 := RedMove(env, a0);
    WriteTwoByTwo(0, 0, 0, 0, Coord(0, 0), a0 + 1);
    var r1 := RedMove(env, a1);
    WriteTwoByTwo(a0 + 1, 0, 0, 0, Coord(0, 1), a1 + 1);
    var r2 := RedMove(env, a2);
    WriteTwoByTwo(a0 + 1, a1 + 1, 0, 0, Coord(1, 0), a2 + 1);
    var r3 := RedLastMove(env, a3);
    WriteTwoByTwo(a0 + 1, a1 + 1, a2 + 1, 0, Coord(1, 1), a3 + 1);
    board := env.board;
    rewards := [r0, r1, r2, r3];
  }

  /**
    Red, blue, red, blue fills both columns with one colour each, so the
    finished board is illegal and the last step earns -100.
   */
  method IllegalRedEpisode() returns (rewards: seq<int>)
    ensures rewards == [1, 0, 1, -100]
  {
    var board;
    rewards, board := RedEpisode(0, 1, 0, 1);
    assert !CheckLegalBoard(board, 2, false) by {
      assert board[0][0] == board[1][0];
    }
  }

  /** Red, blue, blue, red gives a checkerboard, so the last step earns 1. */
  method LegalRedEpisode() returns (rewards: seq<int>)
    ensures rewards == [1, 0, 0, 1]
  {
    var board;
    rewards, board := RedEpisode(0, 1, 1, 0);
    assert CheckLegalBoard(board, 2, false);
  }

  /**
    An action outside the colour range earns -1 and leaves the environment as
    it was, both while the episode runs and after it has ended. On a 1 x 1
    board with checking on, the one valid move ends the episode and earns 0,
    since the corner test compares the only cell with itself.
   */
  method IllegalActions() returns (rewards: seq<int>, dones: seq<bool>)
    ensures rewards == [-1, -1, 0, -1]
    ensures dones == [false, false, true, true]
  {
    var env := new ColorEnv(1, 2, false, true, false, true);
    var obs, reward, isDone := env.Step(2);
    rewards, dones := [reward], [isDone];
    obs, reward, isDone := env.Step(-1);
    rewards, dones := rewards + [reward], dones + [isDone];
    CheckLegalBoardSpec(GridWrite(env.board, env.currentLoc, 1), 1, false);
    obs, reward, isDone := env.Step(0);
    rewards, dones := rewards + [reward], dones + [isDone];
    obs, reward, isDone := env.Step(5);
    rewards, dones := rewards + [reward], dones + [isDone];
  }
}
