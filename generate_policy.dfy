/**
  The rule-based policy generator of scripts/generate_policy.py: its own copy
  of the board helpers, the priority rules of `get_optimal_moves`, and the
  memoised depth-first enumeration `generate_perfect_policy`, which fills a
  table from board to a distribution over that board's empty cells.
*/
module GeneratePolicy {
  import opened Probability
  import opened Game

  datatype Option<T> = None | Some(value: T)

  // ---------------------------------------------------------------------------
  // The script's own copies of the board helpers.

  /** The scan of `stateOfBoard` from line k on. */
  function ScanFrom(board: Board, k: nat): int
    requires k <= |Game.WinningLines|
    decreases |Game.WinningLines| - k
  {
    if k == |Game.WinningLines| then
      if 0 in board then -1 else 0
    else if Game.LineWins(board, Game.WinningLines[k]) then board[Game.WinningLines[k].0]
    else ScanFrom(board, k + 1)
  }

  lemma {:induction false} ScanFromAgrees(board: Board, k: nat)
    requires k <= |Game.WinningLines|
    ensures ScanFrom(board, k) == Game.ScanLines(board, k)
    decreases |Game.WinningLines| - k
  {
    if k < |Game.WinningLines| {
      ScanFromAgrees(board, k + 1);
    }
  }

  /** `stateOfBoard` computes what `state_of_board` of tictactoe/game.py computes. */
  function StateOfBoard(board: Board): (r: int)
    ensures r == Game.StateOfBoard(board)
  {
    ScanFromAgrees(board, 0);
    ScanFrom(board, 0)
  }

  /** The comprehension of `getEmpty` over the indices i..8. */
  function EmptyAfter(board: Board, i: nat): seq<Cell>
    requires i <= 9
    decreases 9 - i
  {
    if i == 9 then []
    else if board[i] == 0 then [i] + EmptyAfter(board, i + 1)
    else EmptyAfter(board, i + 1)
  }

  lemma {:induction false} EmptyAfterAgrees(board: Board, i: nat)
    requires i <= 9
    ensures EmptyAfter(board, i) == Game.EmptyFrom(board, i)
    decreases 9 - i
  {
    if i < 9 {
      EmptyAfterAgrees(board, i + 1);
    }
  }

  /** `getEmpty` computes what `get_empty_cells` of tictactoe/game.py computes. */
  function GetEmpty(board: Board): (r: seq<Cell>)
    ensures r == Game.EmptyCells(board)
    ensures forall c: Cell :: c in r <==> board[c] == 0
    ensures StrictlyIncreasing(r)
  {
    EmptyAfterAgrees(board, 0);
    EmptyAfter(board, 0)
  }

  /** `makeMove` computes what `make_move` of tictactoe/game.py computes. */
  function MakeMove(board: Board, location: Cell, player: int): (r: Board)
    ensures r == Game.MakeMove(board, location, player)
  {
    board[location := player]
  }

  // ---------------------------------------------------------------------------
  // get_optimal_moves

  /** Playing `move` for `player` makes `stateOfBoard` report `player` as the winner. */
  predicate Completes(board: Board, move: Cell, player: int)
  {
    StateOfBoard(MakeMove(board, move, player)) == player
  }

  /** Some empty cell completes a line for `player`. */
  predicate CanComplete(board: Board, player: int)
  {
    exists m: Cell {:trigger Completes(board, m, player)} :: board[m] == 0 && Completes(board, m, player)
  }

  /** `move` is the lowest-index empty cell that completes a line for `player`. */
  predicate LowestCompleting(board: Board, move: Cell, player: int)
  {
    board[move] == 0 && Completes(board, move, player) &&
    forall m: Cell :: m < move && board[m] == 0 ==> !Completes(board, m, player)
  }

  /**
    The early-return loop `for move in empty_cells: if ...: return [move]`
    from position k on, giving the position of the first completing move.
  */
  function FirstCompleting(board: Board, cells: seq<Cell>, player: int, k: nat): (r: Option<nat>)
    requires k <= |cells|
    ensures r.Some? ==> k <= r.value < |cells| && Completes(board, cells[r.value], player) &&
                        forall j {:trigger Completes(board, cells[j], player)} :: k <= j < r.value ==> !Completes(board, cells[j], player)
    ensures r.None? ==> forall j {:trigger Completes(board, cells[j], player)} :: k <= j < |cells| ==> !Completes(board, cells[j], player)
    decreases |cells| - k
  {
    if k == |cells| then None
    else if Completes(board, cells[k], player) then Some(k)
    else FirstCompleting(board, cells, player, k + 1)
  }

  /** Over the ascending empty cells, the first completing move is the lowest one. */
  lemma FirstCompletingIsLowest(board: Board, player: int)
    ensures FirstCompleting(board, GetEmpty(board), player, 0).Some? <==> CanComplete(board, player)
    ensures FirstCompleting(board, GetEmpty(board), player, 0).Some? ==>
              LowestCompleting(board, GetEmpty(board)[FirstCompleting(board, GetEmpty(board), player, 0).value], player)
  {
    var empty := GetEmpty(board);
    var found := FirstCompleting(board, empty, player, 0);
    if found.Some? {
      var i := found.value;
      forall m: Cell | m < empty[i] && board[m] == 0 ensures !Completes(board, m, player) {
        assert m in empty;
        var j := IndexBefore(empty, i, m);
      }
      assert board[empty[i]] == 0 by { assert empty[i] in empty; }
    } else {
      forall m: Cell | board[m] == 0 ensures !Completes(board, m, player) {
        var j :| 0 <= j < |empty| && empty[j] == m;
      }
    }
  }

  /** When no empty cell completes a line for `player`, the early-return loop finds nothing. */
  lemma NothingCompletes(board: Board, player: int)
    requires !CanComplete(board, player)
    ensures FirstCompleting(board, GetEmpty(board), player, 0) == None
  {
    FirstCompletingIsLowest(board, player);
  }

  const Center: Cell := 4
  const Corners: seq<Cell> := [0, 2, 6, 8]
  const Edges: seq<Cell> := [1, 3, 5, 7]

  /** `[c for c in cs if c in cells]`. */
  function KeepIn(cs: seq<Cell>, cells: seq<Cell>): (r: seq<Cell>)
    ensures forall c :: c in r <==> c in cs && c in cells
    ensures StrictlyIncreasing(cs) ==> StrictlyIncreasing(r)
  {
    if cs == [] then []
    else if cs[0] in cells then
      var rest := KeepIn(cs[1..], cells);
      assert StrictlyIncreasing(cs) ==> forall j :: 0 <= j < |rest| ==> cs[0] < rest[j] by {
        if StrictlyIncreasing(cs) {
          forall j | 0 <= j < |rest| ensures cs[0] < rest[j] {
            assert rest[j] in cs[1..];
          }
        }
      }
      [cs[0]] + rest
    else KeepIn(cs[1..], cells)
  }

  /**
    `get_optimal_moves`: the first rule that applies among an immediate win,
    a block, the center, the free corners and finally every empty cell.
  */
  function GetOptimalMoves(board: Board, player: int): (r: seq<Cell>)
    ensures r == [] <==> GetEmpty(board) == []
    ensures forall m :: m in r ==> m in GetEmpty(board)
  {
    var empty := GetEmpty(board);
    if empty == [] then []
    else
      match FirstCompleting(board, empty, player, 0)
      case Some(i) => [empty[i]]
      case None =>
        match FirstCompleting(board, empty, 3 - player, 0)
        case Some(i) => [empty[i]]
        case None => PositionalMoves(board, player)
  }

  /**
    The positional rules of `get_optimal_moves`, tried once neither player can
    win at once: the center, else the free corners (twice, once for an
    opponent in the center), else every empty cell.
  */
  function PositionalMoves(board: Board, player: int): (r: seq<Cell>)
    ensures r == [] <==> GetEmpty(board) == []
    ensures forall m :: m in r ==> m in GetEmpty(board)
  {
    var empty := GetEmpty(board);
    var corners := KeepIn(Corners, empty);
    assert corners != [] ==> corners[0] in empty;
    if Center in empty then [Center]
    else if board[Center] == 3 - player && corners != [] then corners
    else if corners != [] then corners
    else empty
  }

  /**
    The optimal moves are empty cells in ascending order, and there is none
    exactly when the board is full.
  */
  lemma OptimalMovesAreEmptyCells(board: Board, player: int)
    ensures GetOptimalMoves(board, player) == [] <==> forall c: Cell :: board[c] != 0
    ensures forall m :: m in GetOptimalMoves(board, player) ==> board[m] == 0
    ensures StrictlyIncreasing(GetOptimalMoves(board, player))
  {
    var empty := GetEmpty(board);
    if empty == [] {
      forall c: Cell ensures board[c] != 0 {
        assert c !in empty;
      }
    } else {
      assert board[empty[0]] == 0 by { assert empty[0] in empty; }
      var r := GetOptimalMoves(board, player);
      forall m | m in r ensures board[m] == 0 {
        assert m in empty;
      }
    }
  }

  /**
    Rules 1 and 2: the lowest-index cell that wins for `player`, failing that
    the lowest-index cell where the opponent `3 - player` would win.
  */
  lemma OptimalMovesWinOrBlock(board: Board, player: int)
    ensures CanComplete(board, player) ==>
              |GetOptimalMoves(board, player)| == 1 &&
              LowestCompleting(board, GetOptimalMoves(board, player)[0], player)
    ensures !CanComplete(board, player) && CanComplete(board, 3 - player) ==>
              |GetOptimalMoves(board, player)| == 1 &&
              LowestCompleting(board, GetOptimalMoves(board, player)[0], 3 - player)
  {
    FirstCompletingIsLowest(board, player);
    FirstCompletingIsLowest(board, 3 - player);
    if CanComplete(board, player) || CanComplete(board, 3 - player) {
      var empty := GetEmpty(board);
      assert empty != [] by {
        var m: Cell :| board[m] == 0;
        assert m in empty;
      }
    }
  }

  /**
    Rules 3 to 6, when nobody can win at once: the center if it is free,
    else the free corners in the order 0, 2, 6, 8, else every empty cell,
    which are then all edges.
  */
  lemma OptimalMovesPositional(board: Board, player: int)
    requires !CanComplete(board, player) && !CanComplete(board, 3 - player)
    ensures board[Center] == 0 ==> GetOptimalMoves(board, player) == [Center]
    ensures board[Center] != 0 && (exists c :: c in Corners && board[c] == 0) ==>
              forall c: Cell :: c in GetOptimalMoves(board, player) <==> c in Corners && board[c] == 0
    ensures board[Center] != 0 && (forall c :: c in Corners ==> board[c] != 0) ==>
              GetOptimalMoves(board, player) == GetEmpty(board) &&
              forall c :: c in GetOptimalMoves(board, player) ==> c in Edges
  {
    NothingCompletes(board, player);
    NothingCompletes(board, 3 - player);
    OptimalIsPositional(board, player);
    PositionalRules(board, player);
  }

  /** Once both early-return loops have found nothing, the positional rules decide. */
  lemma OptimalIsPositional(board: Board, player: int)
    requires FirstCompleting(board, GetEmpty(board), player, 0) == None
    requires FirstCompleting(board, GetEmpty(board), 3 - player, 0) == None
    ensures GetOptimalMoves(board, player) == PositionalMoves(board, player)
  {
  }

  /** The center, else exactly the free corners, else every empty cell, which are then all edges. */
  lemma PositionalRules(board: Board, player: int)
    ensures board[Center] == 0 ==> PositionalMoves(board, player) == [Center]
    ensures board[Center] != 0 && (exists c :: c in Corners && board[c] == 0) ==>
              forall c: Cell :: c in PositionalMoves(board, player) <==> c in Corners && board[c] == 0
    ensures board[Center] != 0 && (forall c :: c in Corners ==> board[c] != 0) ==>
              PositionalMoves(board, player) == GetEmpty(board) &&
              forall c :: c in PositionalMoves(board, player) ==> c in Edges
  {
    var empty := GetEmpty(board);
    if board[Center] == 0 {
      assert Center in empty;
    } else if exists c :: c in Corners && board[c] == 0 {
      FreeCornersChosen(board, player);
    } else {
      OnlyEdgesLeft(board, player);
    }
  }

  /** With the center taken and a corner free, the positional rules give the free corners. */
  lemma FreeCornersChosen(board: Board, player: int)
    requires board[Center] != 0
    requires exists c :: c in Corners && board[c] == 0
    ensures PositionalMoves(board, player) == KeepIn(Corners, GetEmpty(board))
    ensures forall c: Cell :: c in PositionalMoves(board, player) <==> c in Corners && board[c] == 0
  {
    var empty := GetEmpty(board);
    var c :| c in Corners && board[c] == 0;
    assert c in empty;
    assert c in KeepIn(Corners, empty);
  }

  /** With the center and every corner taken, the positional rules give the empty cells, all of them edges. */
  lemma OnlyEdgesLeft(board: Board, player: int)
    requires board[Center] != 0
    requires forall c :: c in Corners ==> board[c] != 0
    ensures PositionalMoves(board, player) == GetEmpty(board)
    ensures forall c :: c in GetEmpty(board) ==> c in Edges
  {
    var empty := GetEmpty(board);
    assert Center !in empty;
    KeepInNone(Corners, empty);
    EmptyAreEdges(board);
  }

  /** Filtering by cells that hold none of `cs` keeps nothing. */
  lemma {:induction false} KeepInNone(cs: seq<Cell>, cells: seq<Cell>)
    requires forall c :: c in cs ==> c !in cells
    ensures KeepIn(cs, cells) == []
    decreases |cs|
  {
    if cs != [] {
      assert cs[0] in cs;
      KeepInNone(cs[1..], cells);
    }
  }

  /** With the center and every corner taken, only edges can be empty. */
  lemma EmptyAreEdges(board: Board)
    requires board[Center] != 0
    requires forall c :: c in Corners ==> board[c] != 0
    ensures forall c: Cell :: board[c] == 0 ==> c in Edges
  {
    assert Corners[0] in Corners && Corners[1] in Corners && Corners[2] in Corners && Corners[3] in Corners;
    forall c: Cell | board[c] == 0 ensures c in Edges {
      assert c == Edges[0] || c == Edges[1] || c == Edges[2] || c == Edges[3];
    }
  }





  /** With at most one marker on the board, no single move completes a line for anybody. */
  lemma OneMarkerNoCompletion(board: Board, x: Cell, player: int)
    requires forall c: Cell :: c != x ==> board[c] == 0
    requires player > 0
    ensures !CanComplete(board, player)
  {
    forall m: Cell | board[m] == 0 ensures !Completes(board, m, player) {
      var after := MakeMove(board, m, player);
      Game.TwoMarkersNoLine(after, x, m);
      Game.NoLineDecides(after);
    }
  }

  // ---------------------------------------------------------------------------
  // The distribution stored for a board

  /**
    What `generate_all_states` stores for a board: mass 1/|optimal| on each
    optimal empty cell and 0 on the other empty cells, indexed like the empty
    cells; the uniform vector if the rules gave no move.
  */
  function RuleDistribution(board: Board, player: int): (r: seq<real>)
    ensures |r| == |GetEmpty(board)|
  {
    var empty := GetEmpty(board);
    var optimal := GetOptimalMoves(board, player);
    if optimal == [] then Uniform(|empty|)
    else Mask(empty, Elements(optimal), 1.0 / (|optimal| as real))
  }

  /**
    The stored vector has one entry per empty cell, holds 1/|optimal| exactly
    at the optimal cells and 0 elsewhere, and, when some cell is empty, is a
    probability distribution: non-negative and summing to one.
  */
  lemma RuleDistributionShape(board: Board, player: int)
    ensures |RuleDistribution(board, player)| == |GetEmpty(board)|
    ensures GetOptimalMoves(board, player) != [] ==>
              forall i :: 0 <= i < |GetEmpty(board)| ==>
                RuleDistribution(board, player)[i] ==
                  if GetEmpty(board)[i] in GetOptimalMoves(board, player)
                  then 1.0 / (|GetOptimalMoves(board, player)| as real) else 0.0
    ensures GetEmpty(board) != [] ==> IsDistribution(RuleDistribution(board, player))
  {
    var empty := GetEmpty(board);
    var optimal := GetOptimalMoves(board, player);
    OptimalMovesAreEmptyCells(board, player);
    if empty != [] {
      assert board[empty[0]] == 0 by { assert empty[0] in empty; }
      forall x | x in optimal ensures x in empty {
        assert board[x] == 0;
      }
      MaskIsDistribution(empty, optimal);
    }
  }

  /**
    `prob_dist` of `generate_all_states`: filled cell by cell into a zeroed
    array, then divided in place by its sum.
  */
  method BuildDistribution(board: Board, player: int) returns (dist: seq<real>)
    ensures dist == RuleDistribution(board, player)
  {
    var optimal := GetOptimalMoves(board, player);
    var empty := GetEmpty(board);
    var n := |empty|;
    var probs: array<real>;
    if optimal == [] {
      // The rules give no move only on a full board, where `np.ones(0) / 0` is empty.
      probs := new real[0];
      assert probs[..] == Uniform(n);
    } else {
      probs := MarkOptimal(empty, optimal);
    }
    ghost var raw := probs[..];
    RuleDistributionShape(board, player);
    var total := Sum(probs[..]);
    if n > 0 {
      DivideInPlace(probs, total);
      assert Scale(raw, 1.0) == raw;
    }
    dist := probs[..];
  }

  /** The loop of `generate_all_states` that puts 1/|optimal| at every optimal cell of a zeroed vector. */
  method MarkOptimal(empty: seq<Cell>, optimal: seq<Cell>) returns (probs: array<real>)
    requires optimal != []
    ensures fresh(probs)
    ensures probs[..] == Mask(empty, Elements(optimal), 1.0 / (|optimal| as real))
  {
    var n := |empty|;
    probs := new real[n](_ => 0.0);
    var c := 1.0 / (|optimal| as real);
    var i := 0;
    while i < n
      invariant 0 <= i <= n
      invariant forall j :: 0 <= j < i ==> probs[j] == if empty[j] in optimal then c else 0.0
      invariant forall j :: i <= j < n ==> probs[j] == 0.0
    {
      if empty[i] in optimal {
        probs[i] := c;
      }
      i := i + 1;
    }
  }

  /** `prob_dist /= np.sum(prob_dist)`: every entry divided by `total`, in place. */
  method DivideInPlace(probs: array<real>, total: real)
    requires total != 0.0
    modifies probs
    ensures probs[..] == Scale(old(probs[..]), total)
  {
    var i := 0;
    while i < probs.Length
      invariant 0 <= i <= probs.Length
      invariant forall j :: 0 <= j < i ==> probs[j] == old(probs[j]) / total
      invariant forall j :: i <= j < probs.Length ==> probs[j] == old(probs[j])
    {
      probs[i] := probs[i] / total;
      i := i + 1;
    }
  }

  // ---------------------------------------------------------------------------
  // Reachable boards

  /** The empty board `(0,0,0,0,0,0,0,0,0)` the enumeration starts from. */
  const StartBoard: Board := [0, 0, 0, 0, 0, 0, 0, 0, 0]

  /** Player 1 (O) makes the even plies, player 2 (X) the odd ones. */
  function PlayerOfPly(n: nat): int
  {
    if n % 2 == 0 then 1 else 2
  }

  /** The board after playing the moves of `path` from the start, players alternating. */
  function Play(path: seq<Cell>): Board
  {
    if path == [] then StartBoard
    else MakeMove(Play(path[..|path| - 1]), path[|path| - 1], PlayerOfPly(|path| - 1))
  }

  /** Every move of `path` is made on an empty cell of a board whose game is still going. */
  predicate LegalPath(path: seq<Cell>)
  {
    path == [] ||
    (LegalPath(path[..|path| - 1]) &&
     StateOfBoard(Play(path[..|path| - 1])) == -1 &&
     Play(path[..|path| - 1])[path[|path| - 1]] == 0)
  }

  /** The board arises from the empty board by alternating legal play, O first. */
  ghost predicate Reachable(board: Board)
  {
    exists path :: LegalPath(path) && Play(path) == board
  }

  /** Whose turn it is, judged from the board alone: O when an odd number of cells is empty. */
  function PlayerToMove(board: Board): int
  {
    if |GetEmpty(board)| % 2 == 1 then 1 else 2
  }

  /**
    After a legal path of n moves, 9 - n cells are empty, every cell holds
    0, 1 or 2, and the player to move by the parity rule is the one whose
    ply it is.
  */
  lemma {:induction false} PathShape(path: seq<Cell>)
    requires LegalPath(path)
    ensures |GetEmpty(Play(path))| == 9 - |path|
    ensures Game.ValidCells(Play(path))
    ensures PlayerToMove(Play(path)) == PlayerOfPly(|path|)
  {
    if path == [] {
      Game.KnownEmptyCells();
      assert Play(path) == Game.CreateBoard();
    } else {
      var before := path[..|path| - 1];
      PathShape(before);
      Game.MoveRemovesEmptyCell(Play(before), path[|path| - 1], PlayerOfPly(|before|));
    }
    var empties := |GetEmpty(Play(path))|;
    ParityFlip(|path|, empties);
    assert PlayerToMove(Play(path)) == if empties % 2 == 1 then 1 else 2;
  }

  /** With n plies made and e cells empty (n + e == 9), e is odd exactly when n is even. */
  lemma ParityFlip(n: nat, e: nat)
    requires n + e == 9
    ensures e % 2 == 1 <==> n % 2 == 0
    ensures PlayerOfPly(n + 1) == 3 - PlayerOfPly(n)
  {
  }

  /** A legal path extended by a move on an empty cell of an unfinished board stays legal. */
  lemma ExtendPath(path: seq<Cell>, move: Cell)
    requires LegalPath(path) && StateOfBoard(Play(path)) == -1 && Play(path)[move] == 0
    ensures LegalPath(path + [move])
    ensures Play(path + [move]) == MakeMove(Play(path), move, PlayerOfPly(|path|))
  {
    assert (path + [move])[..|path|] == path;
  }

  // ---------------------------------------------------------------------------
  // The table built by generate_all_states

  /** Every entry is an unfinished reachable board holding its rule distribution for the player to move. */
  ghost predicate Sound(table: Policy)
  {
    forall k :: k in table ==> SoundEntry(k, table[k])
  }

  /** The board after the player to move plays `move`. */
  function Child(board: Board, move: Cell): Board
  {
    MakeMove(board, move, PlayerToMove(board))
  }

  /**
    Every entry outside `pending` (the boards whose moves are still being
    explored) has all its unfinished children in the table.
  */
  predicate Closed(table: Policy, pending: set<Board>)
  {
    forall k, m: Cell :: k in table && k !in pending && k[m] == 0 && StateOfBoard(Child(k, m)) == -1 ==>
      Child(k, m) in table
  }

  /** Every entry of `table` is kept unchanged in `result`. */
  predicate Extends(table: Policy, result: Policy)
  {
    forall k :: k in table ==> k in result && result[k] == table[k]
  }

  /**
    `generate_all_states(board, player)`: stops at a finished board or one
    already in the table; otherwise stores the board's rule distribution and
    recurses into every move for `player`, handing the turn to `3 - player`.
    `path` is the move sequence that led here and `pending` the boards on the
    recursion stack; both exist only for the proof.
  */
  method GenerateAllStates(board: Board, player: int, table: Policy, ghost path: seq<Cell>, ghost pending: set<Board>)
    returns (result: Policy)
    requires LegalPath(path) && Play(path) == board && player == PlayerOfPly(|path|)
    requires Sound(table) && Closed(table, pending)
    ensures Sound(result) && Closed(result, pending)
    ensures Extends(table, result)
    ensures StateOfBoard(board) == -1 ==> board in result
    decreases |GetEmpty(board)|
  {
    var state := StateOfBoard(board);
    if state != -1 {
      return table;
    }
    if board in table {
      return table;
    }
    PathShape(path);
    var dist := BuildDistribution(board, player);
    InsertKeepsInvariants(table, pending, board, dist, path);
    result := table[board := dist];
    var empty := GetEmpty(board);
    var i := 0;
    while i < |empty|
      invariant 0 <= i <= |empty|
      invariant Sound(result) && Closed(result, pending + {board})
      invariant Extends(table, result) && board in result
      invariant forall j :: 0 <= j < i && StateOfBoard(Child(board, empty[j])) == -1 ==>
                  Child(board, empty[j]) in result
    {
      var move := empty[i];
      ChildStep(board, player, path, move);
      var next := MakeMove(board, move, player);
      ghost var before := result;
      result := GenerateAllStates(next, 3 - player, result, path + [move], pending + {board});
      ChildDone(table, before, result, board, empty, i);
      i := i + 1;
    }
    ChildrenDone(result, pending, board, empty);
  }

  /** One move from an unfinished board on a legal path: the path stays legal, the turn passes and a cell fills. */
  lemma ChildStep(board: Board, player: int, path: seq<Cell>, move: Cell)
    requires LegalPath(path) && Play(path) == board && player == PlayerOfPly(|path|)
    requires StateOfBoard(board) == -1 && move in GetEmpty(board)
    ensures LegalPath(path + [move]) && Play(path + [move]) == MakeMove(board, move, player)
    ensures PlayerOfPly(|path + [move]|) == 3 - player
    ensures |GetEmpty(MakeMove(board, move, player))| < |GetEmpty(board)|
    ensures Child(board, move) == MakeMove(board, move, player)
  {
    PathShape(path);
    Game.MoveRemovesEmptyCell(board, move, player);
    ExtendPath(path, move);
    ParityFlip(|path|, |GetEmpty(board)|);
  }

  /** O to move on the empty board: the whole mass goes to the center. */
  lemma StartEntry(board: Board)
    requires forall c: Cell :: board[c] == 0
    ensures Reachable(board) && StateOfBoard(board) == -1 && PlayerToMove(board) == 1
    ensures GetOptimalMoves(board, 1) == [Center]
    ensures RuleDistribution(board, 1) == [0.0, 0.0, 0.0, 0.0, 1.0, 0.0, 0.0, 0.0, 0.0]
  {
    StartOpen(board);
    StartCenter(board);
    var empty: seq<int> := [0, 1, 2, 3, 4, 5, 6, 7, 8];
    CenterMask(empty);
  }

  lemma StartOpen(board: Board)
    requires forall c: Cell :: board[c] == 0
    ensures Reachable(board) && StateOfBoard(board) == -1 && PlayerToMove(board) == 1
    ensures GetEmpty(board) == [0, 1, 2, 3, 4, 5, 6, 7, 8]
  {
    assert board == StartBoard;
    assert LegalPath([]) && Play([]) == board;
    Game.EmptyCellsAre(board, [0, 1, 2, 3, 4, 5, 6, 7, 8]);
    assert |GetEmpty(board)| == 9;
    Game.TwoMarkersNoLine(board, 0, 0);
    Game.NoLineDecides(board);
  }

  lemma StartCenter(board: Board)
    requires forall c: Cell :: board[c] == 0
    ensures GetOptimalMoves(board, 1) == [Center]
  {
    OneMarkerNoCompletion(board, 0, 1);
    OneMarkerNoCompletion(board, 0, 2);
    OptimalMovesPositional(board, 1);
  }

  /** All mass on the center, laid over the nine cells. */
  lemma CenterMask(empty: seq<int>)
    requires empty == [0, 1, 2, 3, 4, 5, 6, 7, 8]
    ensures Mask(empty, Elements([Center]), 1.0 / (|[Center]| as real)) == [0.0, 0.0, 0.0, 0.0, 1.0, 0.0, 0.0, 0.0, 0.0]
  {
    var m := Mask(empty, Elements([Center]), 1.0 / (|[Center]| as real));
    forall i | 0 <= i < 9 ensures m[i] == [0.0, 0.0, 0.0, 0.0, 1.0, 0.0, 0.0, 0.0, 0.0][i] {
      assert empty[i] in Elements([Center]) <==> empty[i] == Center;
    }
  }

  /**
    X to move after O opened in the center: the mass is spread over the four
    corners, which are positions 0, 2, 5 and 7 of the eight empty cells.
  */
  lemma CenterOpeningEntry(board: Board)
    requires forall c: Cell :: board[c] == if c == Center then 1 else 0
    ensures Reachable(board) && StateOfBoard(board) == -1 && PlayerToMove(board) == 2
    ensures GetOptimalMoves(board, 2) == Corners
    ensures RuleDistribution(board, 2) == [0.25, 0.0, 0.25, 0.0, 0.0, 0.25, 0.0, 0.25]
  {
    CenterOpeningReachable(board);
    var empty: seq<int> := [0, 1, 2, 3, 5, 6, 7, 8];
    Game.EmptyCellsAre(board, empty);
    assert |GetEmpty(board)| == 8;
    CenterOpeningCorners(board);
    CornerMask(empty);
  }

  /** Mass 1/4 on each corner, laid over the cells other than the center. */
  lemma CornerMask(empty: seq<int>)
    requires empty == [0, 1, 2, 3, 5, 6, 7, 8]
    ensures Mask(empty, Elements(Corners), 1.0 / (|Corners| as real)) == [0.25, 0.0, 0.25, 0.0, 0.0, 0.25, 0.0, 0.25]
  {
    var m := Mask(empty, Elements(Corners), 1.0 / (|Corners| as real));
    assert 1.0 / (|Corners| as real) == 0.25;
    forall i | 0 <= i < 8 ensures m[i] == [0.25, 0.0, 0.25, 0.0, 0.0, 0.25, 0.0, 0.25][i] {
      assert empty[i] in Elements(Corners) <==> empty[i] in Corners;
    }
  }

  lemma CenterOpeningCorners(board: Board)
    requires forall c: Cell :: board[c] == if c == Center then 1 else 0
    ensures GetOptimalMoves(board, 2) == Corners
  {
    CenterOpeningNoThreat(board);
    AllCornersFree(board, 2);
  }

  /** With no threat on the board, the center taken and every corner free, the optimal moves are the four corners. */
  lemma AllCornersFree(board: Board, player: int)
    requires !CanComplete(board, player) && !CanComplete(board, 3 - player)
    requires board[Center] != 0 && forall c :: c in Corners ==> board[c] == 0
    ensures GetOptimalMoves(board, player) == Corners
  {
    assert 0 in Corners;
    OptimalMovesPositional(board, player);
    OptimalMovesAreEmptyCells(board, player);
    SameAsCorners(GetOptimalMoves(board, player), board);
  }

  lemma CenterOpeningNoThreat(board: Board)
    requires forall c: Cell :: board[c] == if c == Center then 1 else 0
    ensures !CanComplete(board, 2) && !CanComplete(board, 3 - 2)
  {
    OneMarkerNoCompletion(board, Center, 2);
    OneMarkerNoCompletion(board, Center, 1);
  }

  lemma SameAsCorners(optimal: seq<Cell>, board: Board)
    requires StrictlyIncreasing(optimal)
    requires forall c: Cell :: c in optimal <==> c in Corners && board[c] == 0
    requires forall c: Cell :: c in Corners ==> board[c] == 0
    ensures optimal == Corners
  {
    forall x ensures x in optimal <==> x in Corners {
      if x in Corners {
        var c: Cell := x;
        assert board[c] == 0;
      }
    }
    IncreasingUnique(optimal, Corners);
  }

  lemma CenterOpeningReachable(board: Board)
    requires forall c: Cell :: board[c] == if c == Center then 1 else 0
    ensures Reachable(board) && StateOfBoard(board) == -1
  {
    var start := Play([]);
    assert start == StartBoard;
    Game.TwoMarkersNoLine(start, 0, 0);
    Game.NoLineDecides(start);
    ExtendPath([], Center);
    assert [] + [Center] == [Center];
    assert Play([Center]) == board;
    Game.TwoMarkersNoLine(board, Center, Center);
    Game.NoLineDecides(board);
  }

  /** A board in its rule distribution for the player to move is a sound entry. */
  ghost predicate SoundEntry(k: Board, v: seq<real>)
  {
    StateOfBoard(k) == -1 && Reachable(k) && v == RuleDistribution(k, PlayerToMove(k))
  }

  lemma InsertKeepsInvariants(table: Policy, pending: set<Board>, board: Board, dist: seq<real>, path: seq<Cell>)
    requires Sound(table) && Closed(table, pending) && board !in table
    requires LegalPath(path) && Play(path) == board && StateOfBoard(board) == -1
    requires dist == RuleDistribution(board, PlayerToMove(board))
    ensures Sound(table[board := dist]) && Closed(table[board := dist], pending + {board})
    ensures Extends(table, table[board := dist])
  {
    assert Reachable(board);
    InsertSound(table, board, dist);
    InsertClosed(table, pending, board, dist);
  }

  lemma InsertSound(table: Policy, board: Board, dist: seq<real>)
    requires Sound(table) && SoundEntry(board, dist)
    ensures Sound(table[board := dist])
  {
  }

  lemma InsertClosed(table: Policy, pending: set<Board>, board: Board, dist: seq<real>)
    requires Closed(table, pending)
    ensures Closed(table[board := dist], pending + {board})
  {
  }

  lemma ExtendsTransitive(a: Policy, b: Policy, c: Policy)
    requires Extends(a, b) && Extends(b, c)
    ensures Extends(a, c)
  {
  }

  /** After the recursive call for the i-th move, the table still extends the original and holds every unfinished child so far. */
  lemma ChildDone(table: Policy, before: Policy, result: Policy, board: Board, empty: seq<Cell>, i: nat)
    requires Extends(table, before) && Extends(before, result) && board in before
    requires i < |empty|
    requires forall j :: 0 <= j < i && StateOfBoard(Child(board, empty[j])) == -1 ==> Child(board, empty[j]) in before
    requires StateOfBoard(Child(board, empty[i])) == -1 ==> Child(board, empty[i]) in result
    ensures Extends(table, result) && board in result
    ensures forall j :: 0 <= j < i + 1 && StateOfBoard(Child(board, empty[j])) == -1 ==> Child(board, empty[j]) in result
  {
    ExtendsTransitive(table, before, result);
  }

  lemma ChildrenDone(table: Policy, pending: set<Board>, board: Board, empty: seq<Cell>)
    requires Closed(table, pending + {board}) && empty == GetEmpty(board)
    requires forall j :: 0 <= j < |empty| && StateOfBoard(Child(board, empty[j])) == -1 ==>
               Child(board, empty[j]) in table
    ensures Closed(table, pending)
  {
    forall k, m: Cell | k in table && k !in pending && k[m] == 0 && StateOfBoard(Child(k, m)) == -1
      ensures Child(k, m) in table
    {
      if k == board {
        var j :| 0 <= j < |empty| && empty[j] == m;
      }
    }
  }

  /** Every sound entry is a probability distribution over the board's empty cells, of which there is at least one. */
  lemma SoundEntryIsDistribution(k: Board, v: seq<real>)
    requires SoundEntry(k, v)
    ensures |v| == |GetEmpty(k)| > 0
    ensures IsDistribution(v)
  {
    var path :| LegalPath(path) && Play(path) == k;
    PathShape(path);
    Game.StateOfBoardOutcome(k);
    var c: Cell :| k[c] == 0;
    assert c in GetEmpty(k);
    RuleDistributionShape(k, PlayerToMove(k));
  }

  /** Closure from the start board reaches every board of every legal path that is still unfinished. */
  lemma {:induction false} ClosedTableIsComplete(table: Policy, path: seq<Cell>)
    requires Closed(table, {}) && StartBoard in table
    requires LegalPath(path) && StateOfBoard(Play(path)) == -1
    ensures Play(path) in table
  {
    if path != [] {
      var before := path[..|path| - 1];
      ClosedTableIsComplete(table, before);
      PathShape(before);
      assert Play(path) == Child(Play(before), path[|path| - 1]);
    }
  }

  /**
    `generate_perfect_policy`: the table holds exactly the unfinished boards
    reachable from the empty board, each with the rule distribution for the
    player whose turn it is.
  */
  method GeneratePerfectPolicy() returns (policy: Policy)
    ensures forall k :: k in policy <==> Reachable(k) && StateOfBoard(k) == -1
    ensures forall k :: k in policy ==> policy[k] == RuleDistribution(k, PlayerToMove(k))
    ensures forall k :: k in policy ==> |policy[k]| == |GetEmpty(k)| && IsDistribution(policy[k])
  {
    Game.KnownOngoing();
    assert StartBoard == Game.CreateBoard();
    policy := GenerateAllStates(StartBoard, 1, map[], [], {});
    forall k | Reachable(k) && StateOfBoard(k) == -1 ensures k in policy {
      var path :| LegalPath(path) && Play(path) == k;
      ClosedTableIsComplete(policy, path);
    }
    forall k | k in policy ensures |policy[k]| == |GetEmpty(k)| && IsDistribution(policy[k]) {
      SoundEntryIsDistribution(k, policy[k]);
    }
  }
}
