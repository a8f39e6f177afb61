# ColorEnv in Dafny

A model of `ColorEnv`, a reinforcement-learning environment in which an agent
colours the cells of an n x n board, one cell per step. The environment picks
the cell to colour next (the *target*). It picks either in row-major order
(ordered placement) or an arbitrary free cell. The agent picks only the colour.
The board holds two layers:

- the colour layer, where 0 marks an empty cell;
- the placement marker, with a 1 on the target.

When the last cell is coloured, the episode ends. That step's reward comes from
a legality scan, which looks for two adjacent cells with the same colour.

The environment is the class `ColorEnvironment.ColorEnv`:

- its configuration (`n`, `numColors`, `maximizeRed`, `orderedPlacement`,
  `disableChecking`, `flatten`) is held in constants;
- the two board layers are `board` and `marker`;
- the pool of free cells is `freeCoords`;
- the target is `currentLoc`;
- the placement count is `counter`, and `done` records the end of the episode.

The class invariant `Valid()` holds after the constructor, `Step` and `Reset`.
It says:

- the pool holds exactly the empty cells other than the target (the pool
  holds only such cells; `ColorEnvironment.PoolHoldsEveryEmptyCell` proves by
  counting that it holds all of them);
- the counter counts the coloured cells;
- every colour is in range;
- a finished episode has a full board, an empty pool and no marker;
- with ordered placement, the target is the counter-th cell in row-major order.

Modules:

- `Coords`: cells, the row-major enumeration and the set of all cells.
- `Board`: the two layers, writing one cell, and counting the nonzero entries of
  a layer (`_num_nonzero`).
- `Pool`: the free-cell pool, as a list or a set, and taking one cell from it.
- `Legality`: `_check_legal_board`, and how it compares with proper colouring.
- `Observation`: `_get_state_agent_view`. The flattened view is proved to cut
  back into the board.
- `ColorEnvironment`: the class and its transitions.
- `Episodes`: whole episodes driven through `step`, including two concrete
  2 x 2 episodes and their reward sequences.

Where the code and its own comments disagree, the model follows the code:

- The comment at colorenv/colorenv.py:28 says n must be greater than 1. The
  code accepts any n > 0, and `_check_rep` asserts only that n is positive. For
  n = 1, the corner test indexes row and column `n - 2 = -1`, which Python
  reads as index 0, so the only cell is compared with itself. With checking
  on, a 1 x 1 board is therefore always rejected
  (`Legality.CheckLegalBoardSpec`).
- The comment at colorenv/colorenv.py:49 says the placement layer is zero
  except for one 1 at the next cell to colour. The code's `reset` draws a new
  target but never marks it. After `Reset` the marker layer is empty and
  `_check_rep` would fail. The next accepted `step` repairs this
  (`ColorEnvironment.ColorEnv.Step`, last postcondition).
- The comments at colorenv/colorenv.py:158-159 say every cell outside the last
  row and column is compared with the cells below it and to its right. That is
  what the loop does, but it leaves pairs out. The code compares each cell of
  the top-left (n - 1) x (n - 1) block with its lower and right neighbours,
  then the corner with its two neighbours. For n = 2 that covers every pair
  (`Legality.TwoByTwoExact`). For every n >= 3, the pairs inside the last row
  and the last column are never compared, except the two that touch the
  corner, which the corner test at colorenv/colorenv.py:167 covers
  (`Legality.LastRowPairMissed`,
  `Legality.LastColumnPairMissed`). No proper colouring is ever rejected
  (`Legality.ProperBoardAccepted`).

## Model

| member | source | states |
|---|---|---|
| Coords.RowMajorCoversBoard | colorenv/colorenv.py:85-90 | the row-major enumeration lists n * n distinct cells, exactly the cells of the board |
| Coords.AllCellsCount | colorenv/colorenv.py:91-95 | the set of all cells has n * n members |
| Coords.RowMajorIndex | colorenv/colorenv.py:88-90 | cell (i, j) is entry i * n + j of the row-major enumeration |
| Pool.FullPool | colorenv/colorenv.py:85-95 | a fresh pool is a list when placement is ordered and a set otherwise, has no duplicates, has size n * n, and holds exactly the in-range cells |
| Pool.NewFreeCoords | colorenv/colorenv.py:85-95 | the nested loops build exactly that fresh pool: the row-major list, or the set of all cells |
| Pool.Take | colorenv/colorenv.py:73-79 | a non-empty pool hands out its head (list) or any member (set) and keeps the rest |
| Pool.MembersSize | colorenv/colorenv.py:85-95 | a pool without duplicates has as many members as its size |
| Pool.TookOne | colorenv/colorenv.py:124-132 | the cell handed out was in the pool; the pool loses exactly that cell, shrinks by one and keeps its kind |
| Board.Stack | colorenv/colorenv.py:47-50 | stacking the colour and marker layers gives an n x n x 2 array whose layers 0 and 1 are exactly those grids |
| Board.GridWrite | colorenv/colorenv.py:192 | writing a cell sets that cell and leaves every other cell unchanged |
| Board.NumNonzero | colorenv/colorenv.py:100-101 | `_num_nonzero`: the number of nonzero entries, counted row by row; its properties are stated by `Board.CountFull`, `Board.ZeroCellsCount` and `Board.GridWriteCount` |
| Board.GridWriteCount | colorenv/colorenv.py:100-101 | writing one cell changes the nonzero count by exactly what that cell contributes before and after |
| Board.CountFull | colorenv/colorenv.py:100-101 | a layer has at most n * n nonzero entries, and exactly n * n when every entry is nonzero |
| Board.MarkerCounts | colorenv/colorenv.py:116 | an empty marker layer counts 0 nonzero entries; a layer with one marker counts 1 |
| Board.ZeroCellsCount | colorenv/colorenv.py:100-101 | a layer has exactly n * n minus its nonzero count empty cells, and a cell is empty exactly when it is on the board and holds 0 |
| Board.ClearMark | colorenv/colorenv.py:198 | clearing the only marker leaves an empty layer |
| Observation.Flatten | colorenv/colorenv.py:65 | `state.flatten()` in C order, the last index varying fastest; `Observation.FlattenRoundTrip` states its length and that cutting it back restores the array |
| Observation.FlattenRoundTrip | colorenv/colorenv.py:63-65 | flattening an n x n x 2 array gives 2 * n * n values, and cutting them back restores the array |
| Observation.AgentView | colorenv/colorenv.py:63-67 | the view is flat exactly when flatten is set; the stacked view is the state itself, and the flat view has 2 * n * n values that cut back into the state |
| Legality.CheckLegalBoard | colorenv/colorenv.py:152-170 | `_check_legal_board`: the flag, the (n - 1) x (n - 1) scan and the corner test; `Legality.CheckLegalBoardSpec` states exactly which boards it accepts |
| Legality.PyIndex | colorenv/colorenv.py:167 | a Python index in -n .. n - 1 denotes a valid position: itself, or counted from the end |
| Legality.RowClearSpec | colorenv/colorenv.py:161-163 | the inner loop passes exactly when no remaining cell of the row matches the cell below it or to its right |
| Legality.RowsClearSpec | colorenv/colorenv.py:160-163 | the outer loop passes exactly when no cell of the scanned rows clashes |
| Legality.CheckLegalBoardSpec | colorenv/colorenv.py:152-170 | the scan accepts exactly when checking is disabled, or when the (n - 1) x (n - 1) block has no clash and the corner differs from both neighbours; a 1 x 1 board is accepted only when checking is disabled |
| Legality.ProperBoardAccepted | colorenv/colorenv.py:152-170 | every properly coloured board of side at least 2 is accepted |
| Legality.TwoByTwoExact | colorenv/colorenv.py:152-170 | on a 2 x 2 board the scan accepts exactly the proper colourings |
| Legality.LastRowPairMissed | colorenv/colorenv.py:160-168 | for every n >= 3, a board whose last row starts with two equal colours is accepted although it is not properly coloured |
| Legality.LastColumnPairMissed | colorenv/colorenv.py:160-168 | for every n >= 3, a board whose last column starts with two equal colours is accepted although it is not properly coloured |
| ColorEnvironment.InitialInv | colorenv/colorenv.py:45-57 | an empty board with the first cell taken from a fresh pool satisfies the invariant, with the marker set (construction) or not set (reset) |
| ColorEnvironment.FinalPlacementInv | colorenv/colorenv.py:191-202 | colouring the last empty cell with a valid colour and clearing its marker ends the episode and keeps the invariant |
| ColorEnvironment.PlacementInv | colorenv/colorenv.py:191-207 | colouring the target while cells remain, then moving the marker to a cell taken from the pool, keeps the invariant, including row-major order |
| ColorEnvironment.Rep | colorenv/colorenv.py:106-116 | `_check_rep` over the fields of one state, one conjunct per assertion; `ColorEnvironment.RepIff` states when a state that keeps the invariant passes it |
| ColorEnvironment.ColorEnv.CheckRep | colorenv/colorenv.py:106-116 | `_check_rep` of this environment; the constructor, `Step` and `Reset` state when it holds |
| ColorEnvironment.ColorEnv.View | colorenv/colorenv.py:63-67 | `_get_state_agent_view` of this environment: the stacked layers, flattened when flatten is set; `Observation.AgentView` states its shape and that the flat view cuts back into the state |
| ColorEnvironment.RepIff | colorenv/colorenv.py:106-116 | a state that keeps the invariant passes `_check_rep` exactly when the episode is over or the marker is on the target |
| ColorEnvironment.PoolHoldsEveryEmptyCell | colorenv/colorenv.py:85-95 | in an active episode every empty cell other than the target is in the pool |
| ColorEnvironment.ColorEnv.PoolIsEmptyCells | colorenv/colorenv.py:124-137 | while the episode runs, a cell is in the pool exactly when it is on the board, empty and not the target |
| ColorEnvironment.ColorEnv.FullIffDone | colorenv/colorenv.py:108-113 | in a valid environment the episode is over exactly when every cell is coloured |
| ColorEnvironment.ColorEnv.constructor | colorenv/colorenv.py:23-57 | the configuration is stored; the board is empty, the counter is 0, the first target is taken from a fresh pool and marked, and the state is valid and passes `_check_rep` |
| ColorEnvironment.ColorEnv.FirstLocation | colorenv/colorenv.py:73-79 | the target is taken out of the pool |
| ColorEnvironment.ColorEnv.GetNextLocation | colorenv/colorenv.py:124-137 | the next target is taken out of the pool; the marker moves from the old target to the new one |
| ColorEnvironment.ColorEnv.Step | colorenv/colorenv.py:178-209 | an out-of-range action earns -1 and changes nothing; a valid action after the end earns 0 and changes nothing; otherwise the target gets colour action + 1 and the counter grows by one. The move that fills the board ends the episode, clears the marker and earns 1 for a legal board, else -100 with maximizeRed and 0 without. Any other move moves the marker to a cell taken from the pool and earns 1 for colour 1 with maximizeRed, else 0. Validity is kept, and `_check_rep` holds afterwards exactly when it held before or the move was accepted |
| ColorEnvironment.ColorEnv.PlaceLast | colorenv/colorenv.py:191-202 | the move that fills the last cell: it colours and counts the cell, clears the marker, ends the episode and sets the reward from the legality scan |
| ColorEnvironment.ColorEnv.PlaceAndAdvance | colorenv/colorenv.py:191-207 | a move that leaves empty cells: it colours and counts the target, takes the next target, moves the marker and earns the colour-1 reward |
| ColorEnvironment.ColorEnv.Reset | colorenv/colorenv.py:215-224 | the pool is fresh, the board is empty, the counter is 0 and a new target is taken, but the marker layer is left empty, so `_check_rep` fails |
| Episodes.PaintedStep | colorenv/colorenv.py:191-192 | colouring an empty cell extends the record of coloured targets by a new, distinct cell |
| Episodes.PlayNext | colorenv/colorenv.py:178-209 | one valid step colours the current target with the next action's colour and records it |
| Episodes.PlayEpisode | colorenv/colorenv.py:178-209 | n * n valid steps from a fresh episode end it; the targets are n * n distinct cells, each holding the colour played there, and with ordered placement they are exactly the row-major order |
| Episodes.NewRedEnv | colorenv/colorenv.py:23-57 | a new 2 x 2, two-colour, red-maximising, ordered, checked environment has an empty board and targets the first cell in row-major order |
| Episodes.RedMove | colorenv/colorenv.py:191-207 | in that configuration a move before the last colours the target, earns 1 for red and 0 for blue, and targets the next cell in row-major order |
| Episodes.RedLastMove | colorenv/colorenv.py:191-202 | in that configuration the last move colours the target, ends the episode and earns 1 for a legal board, else -100 |
| Episodes.RedEpisode | colorenv/colorenv.py:178-209 | in that configuration four actions colour the cells in row-major order; the first three earn 1 for red and 0 for blue, the last 1 for a legal board and -100 otherwise |
| Episodes.IllegalRedEpisode | colorenv/colorenv.py:178-209 | on a 2 x 2 board with two colours and maximizeRed, the actions 0, 1, 0, 1 earn 1, 0, 1, -100 |
| Episodes.LegalRedEpisode | colorenv/colorenv.py:178-209 | in the same configuration, the actions 0, 1, 1, 0 earn 1, 0, 0, 1 |
| Episodes.IllegalActions | colorenv/colorenv.py:179-202 | on a 1 x 1 board with checking on: two out-of-range actions earn -1 and leave the episode running, the one valid move ends it and earns 0 (the corner test compares the cell with itself), and an out-of-range action after the end earns -1 with the episode still over |

## Left out

- Reading the configuration from a YAML file, and seeding the random
  generator: the constructor takes the six settings as parameters.
- `random.choice` over the free set becomes an arbitrary choice (`:|`). Every
  property holds for whichever cell is drawn.
- The gym `action_space` and `observation_space` declarations (`Discrete`,
  `Box`) are not modelled. Their bounds are not part of the state's behaviour.
- The console messages printed for illegal actions and finished games, and
  `render`, are left out because they are output only.
- The empty `info` dictionary that `step` returns is left out.
- `check_rep_decorate` is left out. Its calls to `_check_rep` are commented out,
  so it only forwards the call. `_check_rep` itself is the predicate
  `CheckRep`.
- `_is_valid_location` is left out. It is never called, and as written it
  cannot run because it lacks `self`.
- The training scripts `basic.py` and `my_tune.py` are clients of the
  environment and are not part of this model.
- The numpy `n x n x 2` array is held as its two layers, `board` and `marker`.
  `ColorEnv.State` stacks them back into the array for the observation.
  Aliasing of the returned array with the environment's own state is not
  modelled: the observation is a value.
- `reset` sets `done` to the integer 0 rather than `False`. The model uses
  `false`, which Python treats the same way in every test the code makes.
- ColorEnvironment.ColorEnv.constructor: requires n > 0. For n = 0 the source
  fails on the empty pool when it draws the first target (colorenv/colorenv.py:55).
  For n < 0 it fails earlier: `np.zeros` rejects the negative dimensions of
  the board (colorenv/colorenv.py:50), and with flatten off the `Box` at
  colorenv/colorenv.py:43 may already refuse the shape.
