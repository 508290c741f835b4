# Tic-tac-toe board, rule-based policy and policy tables

This project models the core of a tic-tac-toe analysis package and proves
properties of that model in Dafny.

- **Board model** (`tictactoe/game.py`). A board is nine cells read row by
  row. Each cell holds 0 (empty), 1 (player O) or 2 (player X). The state of a
  board is -1 while the game goes on, 0 for a draw, or the winner's marker.
  The state comes from a scan of the eight winning lines: rows, then columns,
  then diagonals. The model also covers the empty-cell list, the move
  function and the text rendering. The model is in `game.dfy`.
- **Rule-based "perfect" policy** (`scripts/generate_policy.py`). The script
  carries its own copies of the board helpers; each one is proved equal to its
  counterpart in `game.dfy`. `get_optimal_moves` applies a priority list: win,
  block, center, free corners, then every empty cell. `generate_perfect_policy`
  is a memoised depth-first enumeration. It stores, for every unfinished board
  reachable from the empty board, a distribution over that board's empty
  cells. The model is in `generate_policy.dfy`. The recursion threads the
  table as a `map` through a recursive method. A ghost move path and a ghost
  set of boards on the recursion stack exist only for the proof.
- **Policy tables** (`tictactoe/policies.py`). A random policy with the same
  boards as a given one; the conversion of variable-length vectors into
  nine-cell vectors; and the restriction of a vector to the empty cells, with
  renormalisation and a uniform fallback. The model is in `policies.dfy`.

`probability.dfy` holds the exact counterparts of the numpy vector
operations: `np.ones(n) / n`, `np.sum` and element-wise division. Their sums
are computed over `real`.

## Model

| member | source | states |
|---|---|---|
| Game.CreateBoard | tictactoe/game.py:6-8 | every one of the nine cells is empty |
| Game.StateOfBoard | tictactoe/game.py:10-22 | a result other than -1 and 0 is the marker of some complete line; the exact outcomes are in Game.StateOfBoardOutcome, Game.FirstLineDecides and Game.NoLineDecides |
| Game.ScanLinesDecides | tictactoe/game.py:18-22 | scanning from line k, the first complete line decides the result; with no complete line the result is -1 if a cell is empty and 0 otherwise |
| Game.FirstLineDecides | tictactoe/game.py:12-20 | the first complete line in the order rows, columns, diagonals gives the result, even when later lines are complete too |
| Game.NoLineDecides | tictactoe/game.py:22 | without a complete line the result is -1 if some cell is 0 and 0 otherwise |
| Game.StateOfBoardOutcome | tictactoe/game.py:10-22 | on cells over {0,1,2} the result is one of -1, 0, 1, 2. It is 1 or 2 exactly when some line is complete, and then a line of that marker exists. It is 0 exactly when no line is complete and no cell is empty, and -1 exactly when no line is complete and a cell is empty |
| Game.TwoMarkersNoLine | tictactoe/game.py:12-19 | a board with markers on at most two cells has no complete line |
| Game.EmptyFromSpec | tictactoe/game.py:26 | the comprehension over i..8 holds exactly the empty cells from i on, in strictly ascending order |
| Game.EmptyCells | tictactoe/game.py:24-26 | the list holds cell c exactly when cell c is 0, and it is strictly ascending |
| Game.EmptyCellsAre | tictactoe/game.py:24-26 | any strictly ascending list holding exactly the empty cells is the result of `get_empty_cells` |
| Game.EmptyCellsCount | tictactoe/game.py:24-26 | the number of empty cells plus the number of non-zero cells is 9 |
| Game.MakeMove | tictactoe/game.py:28-32 | the new board holds `player` at `location` and equals the argument everywhere else; the argument is a value and is not changed |
| Game.MoveRemovesEmptyCell | tictactoe/game.py:26-32 | a non-zero marker played on an empty cell removes exactly that cell from the empty cells, and one fewer cell remains |
| Game.RowLayout | tictactoe/game.py:39 | a row is 9 characters: the three symbols at positions 0, 4 and 8, and " \| " between them |
| Game.RenderLayout | tictactoe/game.py:38-41 | the three rows joined by the separator: 49 characters, the symbols at their positions, the separators at 9..20 and 29..40, and " \| " between the symbols |
| Game.DisplayBoard | tictactoe/game.py:34-41 | the text is 49 characters long. Cell c's symbol '.', 'O' or 'X' sits at its position. The two separator lines and every " \| " are in place |
| Game.DisplayRoundTrip | tictactoe/game.py:34-41 | the board can be read back from its rendering: nothing is lost |
| Game.KnownWinners | tests/test_basic.py:16-40 | the five winning boards of the tests give 1, 2, 1, 2, 1 |
| Game.KnownDraw | tests/test_basic.py:42-45 | the full board without a line is a draw |
| Game.KnownOngoing | tests/test_basic.py:75-83 | the empty board and the two boards in play give -1 |
| Game.KnownEmptyCells | tests/test_basic.py:63-73 | the empty-cell lists of the tests: all nine cells, [1,3,5,6,7] and [6] |
| Game.CreateBoardIsOpen | tests/test_basic.py:10-14 | the empty board is unfinished and all its cells are empty |
| GeneratePolicy.ScanFromAgrees | scripts/generate_policy.py:12-19 | the script's scan from line k gives the same result as the scan of `state_of_board` |
| GeneratePolicy.StateOfBoard | scripts/generate_policy.py:4-19 | `stateOfBoard` equals `state_of_board` on every board |
| GeneratePolicy.EmptyAfterAgrees | scripts/generate_policy.py:21-23 | the script's comprehension over i..8 equals that of `get_empty_cells` |
| GeneratePolicy.GetEmpty | scripts/generate_policy.py:21-23 | `getEmpty` equals `get_empty_cells`: exactly the empty cells, strictly ascending |
| GeneratePolicy.MakeMove | scripts/generate_policy.py:25-29 | `makeMove` equals `make_move` on every board |
| GeneratePolicy.FirstCompleting | scripts/generate_policy.py:38-48 | the early-return loop finds the first position whose cell completes a line; every earlier cell does not complete one, and with no result no cell does |
| GeneratePolicy.FirstCompletingIsLowest | scripts/generate_policy.py:38-48 | the loop finds a move exactly when some empty cell completes a line, and the move found is the lowest such cell |
| GeneratePolicy.KeepIn | scripts/generate_policy.py:66 | the filtered corner list holds exactly the corners that are empty, in the order 0, 2, 6, 8 |
| GeneratePolicy.GetOptimalMoves | scripts/generate_policy.py:31-71 | the result is empty exactly when the board has no empty cell, and every move is an empty cell; the rules in order are pinned down by GeneratePolicy.OptimalMovesAreEmptyCells, GeneratePolicy.OptimalMovesWinOrBlock and GeneratePolicy.OptimalMovesPositional |
| GeneratePolicy.OptimalMovesAreEmptyCells | scripts/generate_policy.py:31-71 | the result is empty exactly when the board is full; otherwise every member is an empty cell, in ascending order |
| GeneratePolicy.OptimalMovesWinOrBlock | scripts/generate_policy.py:37-48 | if some empty cell wins for `player`, the result is the single lowest such cell. Failing that, if some cell wins for `3 - player`, the result is the single lowest such cell |
| GeneratePolicy.OptimalMovesPositional | scripts/generate_policy.py:50-71 | with no win or block: a free center gives [4]. Else, with a free corner, the result holds exactly the free corners. Else the result is every empty cell, all of them edges |
| GeneratePolicy.PositionalMoves | scripts/generate_policy.py:50-71 | the positional rules give no move exactly when no cell is empty, and every move they give is an empty cell |
| GeneratePolicy.PositionalRules | scripts/generate_policy.py:55-71 | the center when it is empty; else, when a corner is free, exactly the free corners; else every empty cell, each of them an edge |
| GeneratePolicy.OneMarkerNoCompletion | scripts/generate_policy.py:37-48 | on a board with at most one marker, no move completes a line for a player |
| GeneratePolicy.RuleDistribution | scripts/generate_policy.py:88-101 | one entry per empty cell; its values and its sum to one are in GeneratePolicy.RuleDistributionShape |
| GeneratePolicy.RuleDistributionShape | scripts/generate_policy.py:90-103 | the stored vector has one entry per empty cell and holds 1/\|optimal\| exactly at the optimal cells and 0 elsewhere. When a cell is empty, it is non-negative and sums to one |
| GeneratePolicy.MarkOptimal | scripts/generate_policy.py:95-98 | the loop writes 1/\|optimal\| at every optimal cell of a zeroed vector and leaves 0 elsewhere |
| GeneratePolicy.DivideInPlace | scripts/generate_policy.py:101 | every entry of the array is divided by the sum, in place |
| GeneratePolicy.BuildDistribution | scripts/generate_policy.py:86-101 | the vector built by the loops and the in-place normalisation is the rule distribution of the board |
| GeneratePolicy.PathShape | scripts/generate_policy.py:106-108 | after n legal moves from the empty board, 9 - n cells are empty and every cell holds 0, 1 or 2. The player whose ply it is is 1 when the number of empty cells is odd and 2 when it is even |
| GeneratePolicy.ParityFlip | scripts/generate_policy.py:108 | one more ply flips the parity of the empty cells and hands the turn to `3 - player` |
| GeneratePolicy.ExtendPath | scripts/generate_policy.py:105-108 | a legal path extended by a move on an empty cell of an unfinished board stays legal and ends in the board `makeMove` gives |
| GeneratePolicy.ChildStep | scripts/generate_policy.py:106-108 | each recursive call gets a legal board, the other player, and one empty cell fewer, which bounds the recursion |
| GeneratePolicy.InsertKeepsInvariants | scripts/generate_policy.py:103 | storing an unfinished reachable board with its rule distribution keeps the table sound and overwrites nothing |
| GeneratePolicy.InsertSound | scripts/generate_policy.py:103 | adding a sound entry keeps every entry sound |
| GeneratePolicy.InsertClosed | scripts/generate_policy.py:103 | a board whose children are still being explored does not break the closure of the table |
| GeneratePolicy.ExtendsTransitive | scripts/generate_policy.py:83-84 | entries kept by two successive calls are kept by both together |
| GeneratePolicy.ChildDone | scripts/generate_policy.py:106-108 | after the recursive call for a move, the table still extends the original and holds every unfinished child explored so far |
| GeneratePolicy.ChildrenDone | scripts/generate_policy.py:106-108 | once every move has been explored, the board no longer needs to be on the recursion stack for the table to be closed |
| GeneratePolicy.GenerateAllStates | scripts/generate_policy.py:78-108 | every stored board is unfinished and reachable, with the rule distribution for the player to move. No entry is overwritten. An unfinished board passed in ends up in the table, and the table is closed under moves |
| GeneratePolicy.SoundEntryIsDistribution | scripts/generate_policy.py:88-103 | every stored vector has one entry per empty cell (at least one) and is a probability distribution |
| GeneratePolicy.ClosedTableIsComplete | scripts/generate_policy.py:106-112 | a table that holds the empty board and is closed under moves holds every unfinished board of every legal game |
| GeneratePolicy.GeneratePerfectPolicy | scripts/generate_policy.py:73-114 | the keys are exactly the unfinished boards reachable from the empty board with O first. Each value is the rule distribution for the player to move, has one entry per empty cell, and sums to one |
| GeneratePolicy.StartEntry | scripts/generate_policy.py:55-57 | the empty board, O to move, gets the optimal moves [4] and the vector with 1 at position 4 and 0 elsewhere |
| GeneratePolicy.StartOpen | scripts/generate_policy.py:110-112 | the empty board is reachable and unfinished, has all nine cells empty, and O is to move |
| GeneratePolicy.StartCenter | scripts/generate_policy.py:55-57 | on the empty board the optimal moves are [4] |
| GeneratePolicy.CenterMask | scripts/generate_policy.py:95-98 | mass 1 on cell 4 over the nine empty cells is the vector with 1 at position 4 |
| GeneratePolicy.CenterOpeningEntry | scripts/generate_policy.py:59-63 | after O takes the center, X is to move, the optimal moves are the corners [0,2,6,8], and the vector holds 0.25 at positions 0, 2, 5 and 7 of its eight entries |
| GeneratePolicy.CornerMask | scripts/generate_policy.py:95-98 | mass 1/4 on the corners over the eight cells other than the center |
| GeneratePolicy.CenterOpeningCorners | scripts/generate_policy.py:59-63 | with O in the center only, X's optimal moves are the four corners |
| GeneratePolicy.AllCornersFree | scripts/generate_policy.py:59-68 | with no win or block, the center taken and all corners free, the optimal moves are [0,2,6,8] |
| GeneratePolicy.CenterOpeningNoThreat | scripts/generate_policy.py:37-48 | with O in the center only, neither player can win in one move |
| GeneratePolicy.SameAsCorners | scripts/generate_policy.py:61-68 | an ascending list holding exactly the four free corners is the corner list |
| GeneratePolicy.CenterOpeningReachable | scripts/generate_policy.py:106-112 | the board with O in the center is reachable and unfinished |
| Policies.CreateRandomPolicy | tictactoe/policies.py:9-15 | the same boards as the input. Each entry is the uniform vector of the input entry's length, and a distribution when that length is positive |
| Policies.Spread | tictactoe/policies.py:21-24 | a zeroed nine-cell array receives the i-th probability at the i-th listed cell and keeps 0 on occupied cells |
| Policies.EmptyCellsDistinct | tictactoe/policies.py:22-24 | the listed empty cells are distinct and empty, so no write overwrites another |
| Policies.FixedLength | tictactoe/policies.py:21-25 | the result has length 9, holds `probs[i]` at the i-th empty cell and 0 at every occupied cell |
| Policies.ConvertToFixedLength | tictactoe/policies.py:17-26 | the same boards, each value the nine-cell layout of the input entry |
| Policies.FixedRoundTrip | tictactoe/policies.py:22-24 | reading the nine-cell vector back at the empty cells gives the original entries |
| Policies.FixedForUnique | tictactoe/policies.py:19-25 | the nine-cell layout is determined by the board and the entries |
| Policies.GetValidMoveProbs | tictactoe/policies.py:28-38 | the result has one entry per empty cell |
| Policies.ValidMoveProbsSumsToOne | tictactoe/policies.py:30-38 | whenever the board has an empty cell, the result sums to one |
| Policies.ValidMoveProbsNonNegative | tictactoe/policies.py:35-38 | non-negative stored entries give a non-negative result |
| Policies.ValidMoveProbsFallback | tictactoe/policies.py:32-38 | a board missing from the policy, or one whose restricted mass is not positive, gets the uniform vector over its empty cells |
| Policies.ValidMoveProbsRatios | tictactoe/policies.py:35-37 | with positive restricted mass, each result entry times that mass is the stored entry at that empty cell |
| Policies.ScaledGatherAt | tictactoe/policies.py:35-37 | the i-th entry of the restricted vector divided by its positive sum, times the sum, is the stored entry |
| Policies.ValidMoveProbsOfFixed | tictactoe/policies.py:17-38 | a distribution over the empty cells, laid out over nine cells and restricted again, comes back unchanged |
| Probability.SumConstant | tictactoe/policies.py:14 | n copies of c sum to n times c |
| Probability.UniformIsDistribution | tictactoe/policies.py:14 | `np.ones(n) / n` for n > 0 has positive entries and sums to one |
| Probability.SumScale | tictactoe/policies.py:37 | dividing every entry by s divides the sum by s |
| Probability.MaskIsDistribution | scripts/generate_policy.py:95-101 | mass 1/\|chosen\| on distinct chosen cells, all among distinct cells, is a distribution |

## Left out

- `tictactoe/training.py`, `scripts/run_analysis.py` and `setup.py` are not part of this model. They hold random self-play, floating-point softmax updates, plotting, file handling and packaging.
- `scripts/generate_policy.py:116-138` is not modelled: the pickle dumps, the prints, and the second, inline random policy. The final tolerance check of `1e-10` is replaced by the exact sum-to-one proofs.
- Floating point: every probability is a `real`, so the sums are exact and numpy rounding is not modelled.
- Board length: boards are fixed at nine cells. The source indexes cells 0..8 and would fail on shorter tuples.
- Game.MakeMove: the location is a cell 0..8. Python's negative indices, and the error for an index of 9 or more, are not modelled; no caller passes either.
- Policies.FixedLength: requires at least as many entries as empty cells. The source raises an index error otherwise.
- Policies.ConvertToFixedLength: requires the same of every entry, for the same reason.
- Policies.GetValidMoveProbs: requires every empty cell to index into the stored vector. numpy's fancy indexing raises an error otherwise.
- Dictionary iteration order: the loops over the keys take them in an unspecified order. The results proved do not depend on it.
- In-place mutation of the enclosing dictionary by the nested `generate_all_states` is modelled as a table value passed in and returned. Aliasing of that dictionary is not modelled.
- `np.ones(0) / 0` on a board without empty cells gives an empty vector, and so does `Uniform(0)`.
- Game.DisplayBoard: requires every cell to hold 0, 1 or 2. The source indexes the symbol list with the cell value, so -1 would render as 'X' by Python's negative indexing and 3 or more would raise an index error; neither is modelled.
- Game.CreateBoard: the source returns a list, which is unhashable and never equal to the tuple `(0,)*9` used as a policy key. The model has a single sequence type for boards, so `CreateBoard()` equals the start board of the enumeration.

Behaviour of the code worth knowing when reading the model:

- Winning line: `state_of_board` returns the marker of the first complete line in list order (`Game.FirstLineDecides`).
- Win and block rules: they return only the lowest-index qualifying cell, not every one (`GeneratePolicy.OptimalMovesWinOrBlock`).
- Corner rule: the branch at `scripts/generate_policy.py:60-63` yields the same list as the general corner rule after it.
