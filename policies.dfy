/**
  The policy-table utilities of `tictactoe/policies.py`: a policy maps a board
  to a probability vector, either over the board's empty cells in ascending
  order (variable length) or over all nine cells (fixed length).
*/
module Policies {
  import opened Probability
  import opened Game

  /**
    `create_random_policy`: a table with the same boards in which every entry
    is the uniform vector of the same length as the input's entry.
  */
  method CreateRandomPolicy(perfect: Policy) returns (random: Policy)
    ensures random.Keys == perfect.Keys
    ensures forall k :: k in random ==> random[k] == Uniform(|perfect[k]|)
    ensures forall k :: k in random && perfect[k] != [] ==> IsDistribution(random[k])
  {
    random := map[];
    var todo := perfect.Keys;
    while todo != {}
      invariant todo <= perfect.Keys
      invariant random.Keys == perfect.Keys - todo
      invariant forall k :: k in random ==> random[k] == Uniform(|perfect[k]|)
      decreases |todo|
    {
      var board :| board in todo;
      random := random[board := Uniform(|perfect[board]|)];
      todo := todo - {board};
    }
    forall k | k in random && perfect[k] != [] ensures IsDistribution(random[k]) {
      UniformIsDistribution(|perfect[k]|);
    }
  }

  /**
    `fixed` is the nine-cell vector of `probs` on `board`: the i-th entry of
    `probs` sits on the i-th empty cell, and every occupied cell holds 0.
  */
  predicate FixedFor(board: Board, probs: seq<real>, fixed: seq<real>)
  {
    var empty := Game.EmptyCells(board);
    |empty| <= |probs| && |fixed| == 9 &&
    (forall i :: 0 <= i < |empty| ==> fixed[empty[i]] == probs[i]) &&
    (forall c: Cell :: board[c] != 0 ==> fixed[c] == 0.0)
  }

  /**
    The body of the loop of `convert_to_fixed_length` for one board: a zeroed
    nine-cell array receiving `probs[i]` at the i-th empty cell. The source
    raises an index error when `probs` is shorter than the list of empty cells.
  */
  method FixedLength(board: Board, probs: seq<real>) returns (fixed: seq<real>)
    requires |Game.EmptyCells(board)| <= |probs|
    ensures FixedFor(board, probs, fixed)
  {
    var empty := Game.EmptyCells(board);
    EmptyCellsDistinct(board);
    fixed := Spread(board, empty, probs);
  }

  /** The zeroed nine-cell array receiving `probs[i]` at `cells[i]`, for distinct empty cells. */
  method Spread(board: Board, cells: seq<Cell>, probs: seq<real>) returns (fixed: seq<real>)
    requires |cells| <= |probs|
    requires forall i :: 0 <= i < |cells| ==> board[cells[i]] == 0
    requires forall i, j :: 0 <= i < j < |cells| ==> cells[i] != cells[j]
    ensures |fixed| == 9
    ensures forall i :: 0 <= i < |cells| ==> fixed[cells[i]] == probs[i]
    ensures forall c: Cell :: board[c] != 0 ==> fixed[c] == 0.0
  {
    var a := new real[9](_ => 0.0);
    for i := 0 to |cells|
      invariant forall j :: 0 <= j < i ==> a[cells[j]] == probs[j]
      invariant forall c: Cell :: board[c] != 0 ==> a[c] == 0.0
    {
      a[cells[i]] := probs[i];
    }
    fixed := a[..];
  }

  /** The empty cells are distinct and all empty. */
  lemma EmptyCellsDistinct(board: Board)
    ensures forall i :: 0 <= i < |Game.EmptyCells(board)| ==> board[Game.EmptyCells(board)[i]] == 0
    ensures forall i, j :: 0 <= i < j < |Game.EmptyCells(board)| ==>
              Game.EmptyCells(board)[i] != Game.EmptyCells(board)[j]
  {
    var empty := Game.EmptyCells(board);
    forall i | 0 <= i < |empty| ensures board[empty[i]] == 0 {
      assert empty[i] in empty;
    }
  }

  /** `convert_to_fixed_length`: the same boards, each entry laid out over the nine cells. */
  method ConvertToFixedLength(policy: Policy) returns (fixed: Policy)
    requires forall k :: k in policy ==> |Game.EmptyCells(k)| <= |policy[k]|
    ensures fixed.Keys == policy.Keys
    ensures forall k :: k in fixed ==> FixedFor(k, policy[k], fixed[k])
  {
    fixed := map[];
    var todo := policy.Keys;
    while todo != {}
      invariant todo <= policy.Keys
      invariant fixed.Keys == policy.Keys - todo
      invariant forall k :: k in fixed ==> FixedFor(k, policy[k], fixed[k])
      decreases |todo|
    {
      var board :| board in todo;
      var row := FixedLength(board, policy[board]);
      fixed := fixed[board := row];
      todo := todo - {board};
    }
  }

  /** `v[cells]`: numpy's fancy indexing, the entries of `v` at the listed cells. */
  function Gather(v: seq<real>, cells: seq<Cell>): seq<real>
    requires forall i :: 0 <= i < |cells| ==> cells[i] < |v|
  {
    seq(|cells|, i requires 0 <= i < |cells| => v[cells[i]])
  }

  /**
    Round trip: reading a fixed-length vector back at the board's empty cells
    gives the variable-length vector it was built from (its first |empty|
    entries; the rest were never stored).
  */
  lemma FixedRoundTrip(board: Board, probs: seq<real>, fixed: seq<real>)
    requires FixedFor(board, probs, fixed)
    ensures Gather(fixed, Game.EmptyCells(board)) == probs[..|Game.EmptyCells(board)|]
  {
  }

  /**
    The fixed-length vector is determined by the board and the variable-length
    vector: two layouts of the same entries agree on every cell.
  */
  lemma FixedForUnique(board: Board, probs: seq<real>, f: seq<real>, g: seq<real>)
    requires FixedFor(board, probs, f) && FixedFor(board, probs, g)
    ensures f == g
  {
    var empty := Game.EmptyCells(board);
    forall c: Cell ensures f[c] == g[c] {
      if board[c] == 0 {
        assert c in empty;
        var i :| 0 <= i < |empty| && empty[i] == c;
      }
    }
  }

  /**
    `get_valid_move_probs`: the uniform vector over the empty cells for a board
    the policy lacks; otherwise the stored entries at the empty cells divided
    by their sum, or the uniform vector when that sum is not positive. The
    source raises an index error when an empty cell lies beyond the stored
    vector.
  */
  function GetValidMoveProbs(board: Board, policy: Policy): (r: seq<real>)
    requires board in policy ==>
               forall i :: 0 <= i < |Game.EmptyCells(board)| ==> Game.EmptyCells(board)[i] < |policy[board]|
    ensures |r| == |Game.EmptyCells(board)|
  {
    var empty := Game.EmptyCells(board);
    if board !in policy then Uniform(|empty|)
    else
      var probs := Gather(policy[board], empty);
      if Sum(probs) > 0.0 then Scale(probs, Sum(probs)) else Uniform(|empty|)
  }

  /** The result sums to one whenever the board has an empty cell. */
  lemma ValidMoveProbsSumsToOne(board: Board, policy: Policy)
    requires board in policy ==>
               forall i :: 0 <= i < |Game.EmptyCells(board)| ==> Game.EmptyCells(board)[i] < |policy[board]|
    requires Game.EmptyCells(board) != []
    ensures Sum(GetValidMoveProbs(board, policy)) == 1.0
  {
    var empty := Game.EmptyCells(board);
    UniformIsDistribution(|empty|);
    if board in policy {
      var probs := Gather(policy[board], empty);
      var total := Sum(probs);
      if total > 0.0 {
        assert GetValidMoveProbs(board, policy) == Scale(probs, total);
        SumScale(probs, total);
        assert total / total == 1.0;
      }
    }
  }

  /** Non-negative stored entries give a non-negative result. */
  lemma ValidMoveProbsNonNegative(board: Board, policy: Policy)
    requires board in policy
    requires forall i :: 0 <= i < |Game.EmptyCells(board)| ==> Game.EmptyCells(board)[i] < |policy[board]|
    requires NonNegative(policy[board])
    ensures NonNegative(GetValidMoveProbs(board, policy))
  {
    var empty := Game.EmptyCells(board);
    if empty != [] {
      UniformIsDistribution(|empty|);
    }
    var probs := Gather(policy[board], empty);
    var total := Sum(probs);
    if total > 0.0 {
      assert GetValidMoveProbs(board, policy) == Scale(probs, total);
      assert NonNegative(probs);
      ScaleNonNegative(probs, total);
    }
  }

  /** A board missing from the policy, or one whose restricted mass is not positive, gets the uniform vector. */
  lemma ValidMoveProbsFallback(board: Board, policy: Policy)
    requires board in policy ==>
               forall i :: 0 <= i < |Game.EmptyCells(board)| ==> Game.EmptyCells(board)[i] < |policy[board]|
    ensures board !in policy ==> GetValidMoveProbs(board, policy) == Uniform(|Game.EmptyCells(board)|)
    ensures board in policy && Sum(Gather(policy[board], Game.EmptyCells(board))) <= 0.0 ==>
              GetValidMoveProbs(board, policy) == Uniform(|Game.EmptyCells(board)|)
  {
  }

  /** With positive restricted mass, the entry at the i-th empty cell keeps its ratio to that mass. */
  lemma ValidMoveProbsRatios(board: Board, policy: Policy, i: nat)
    requires board in policy
    requires forall j :: 0 <= j < |Game.EmptyCells(board)| ==> Game.EmptyCells(board)[j] < |policy[board]|
    requires Sum(Gather(policy[board], Game.EmptyCells(board))) > 0.0
    requires i < |Game.EmptyCells(board)|
    ensures GetValidMoveProbs(board, policy)[i] * Sum(Gather(policy[board], Game.EmptyCells(board))) ==
              policy[board][Game.EmptyCells(board)[i]]
  {
    var empty := Game.EmptyCells(board);
    assert GetValidMoveProbs(board, policy) == Scale(Gather(policy[board], empty), Sum(Gather(policy[board], empty)));
    ScaledGatherAt(policy[board], empty, i);
  }

  /** The i-th entry of the gathered vector divided by its positive sum, times that sum, is the entry at the i-th cell. */
  lemma ScaledGatherAt(v: seq<real>, cells: seq<Cell>, i: nat)
    requires forall j :: 0 <= j < |cells| ==> cells[j] < |v|
    requires Sum(Gather(v, cells)) > 0.0 && i < |cells|
    ensures Scale(Gather(v, cells), Sum(Gather(v, cells)))[i] * Sum(Gather(v, cells)) == v[cells[i]]
  {
    var probs := Gather(v, cells);
    var total := Sum(probs);
    assert Scale(probs, total)[i] == probs[i] / total;
    assert probs[i] == v[cells[i]];
  }

  lemma ScaleNonNegative(v: seq<real>, s: real)
    requires s > 0.0
    ensures NonNegative(v) ==> NonNegative(Scale(v, s))
  {
  }

  /**
    Laying a distribution over the empty cells out as a nine-cell vector and
    reading it back with `get_valid_move_probs` gives the distribution back.
  */
  lemma ValidMoveProbsOfFixed(board: Board, probs: seq<real>, fixed: Policy)
    requires board in fixed && FixedFor(board, probs, fixed[board])
    requires |probs| == |Game.EmptyCells(board)| && IsDistribution(probs)
    ensures GetValidMoveProbs(board, fixed) == probs
  {
    var empty := Game.EmptyCells(board);
    FixedRoundTrip(board, probs, fixed[board]);
    assert probs[..|empty|] == probs;
    assert Scale(probs, 1.0) == probs;
  }
}
