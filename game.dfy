/**
  The board model of tictactoe/game.py: a board is an immutable tuple of nine
  cells, each 0 (empty), 1 (player O) or 2 (player X), read row by row.
*/
module Game {
  import opened Probability

  /** An index into the nine cells. */
  type Cell = i: int | 0 <= i < 9

  /** A board tuple. The source indexes cells 0..8, so every board has nine entries. */
  type Board = b: seq<int> | |b| == 9 witness [0, 0, 0, 0, 0, 0, 0, 0, 0]

  /**
    A policy table: board to a probability vector. A variable-length entry is
    indexed like the board's empty cells in ascending order, a fixed-length
    entry like the nine cells.
  */
  type Policy = map<Board, seq<real>>

  /** Every cell holds one of the three markers 0, 1, 2. */
  predicate ValidCells(b: Board)
  {
    forall c: Cell :: 0 <= b[c] <= 2
  }

  /** `create_board`: nine empty cells. */
  function CreateBoard(): (b: Board)
    ensures forall c: Cell :: b[c] == 0
  {
    [0, 0, 0, 0, 0, 0, 0, 0, 0]
  }

  /** The eight winning triples: rows, then columns, then diagonals. */
  const WinningLines: seq<(Cell, Cell, Cell)> :=
    [(0, 1, 2), (3, 4, 5), (6, 7, 8),
     (0, 3, 6), (1, 4, 7), (2, 5, 8),
     (0, 4, 8), (2, 4, 6)]

  /** The three cells of the line hold the same non-empty marker. */
  predicate LineWins(b: Board, line: (Cell, Cell, Cell))
  {
    b[line.0] == b[line.1] && b[line.1] == b[line.2] && b[line.2] != 0
  }

  /** No winning line is complete. */
  predicate NoLineWins(b: Board)
  {
    forall k :: 0 <= k < |WinningLines| ==> !LineWins(b, WinningLines[k])
  }

  /** Some winning line is filled with marker `p`. */
  predicate HasLine(b: Board, p: int)
  {
    exists k :: 0 <= k < |WinningLines| && LineWins(b, WinningLines[k]) && b[WinningLines[k].0] == p
  }

  /** The scan of `state_of_board` over the lines from index k on, with its early return. */
  function ScanLines(b: Board, k: nat): int
    requires k <= |WinningLines|
    decreases |WinningLines| - k
  {
    if k == |WinningLines| then (if 0 in b then -1 else 0)
    else if LineWins(b, WinningLines[k]) then b[WinningLines[k].0]
    else ScanLines(b, k + 1)
  }

  /** `state_of_board`: -1 while the game goes on, 0 for a draw, else the winner's marker. */
  function StateOfBoard(b: Board): (r: int)
    ensures r != -1 && r != 0 ==> HasLine(b, r)
  {
    ScanLinesDecides(b, 0);
    ScanLines(b, 0)
  }

  /**
    The first complete line in list order decides the scan; without one the
    result depends only on whether an empty cell remains.
  */
  lemma {:induction false} ScanLinesDecides(b: Board, k: nat)
    requires k <= |WinningLines|
    ensures (forall j :: k <= j < |WinningLines| ==> !LineWins(b, WinningLines[j])) ==>
              ScanLines(b, k) == (if 0 in b then -1 else 0)
    ensures forall j :: k <= j < |WinningLines| && LineWins(b, WinningLines[j]) &&
                        (forall i :: k <= i < j ==> !LineWins(b, WinningLines[i])) ==>
              ScanLines(b, k) == b[WinningLines[j].0]
    ensures (exists j :: k <= j < |WinningLines| && LineWins(b, WinningLines[j])) ==>
              exists j :: k <= j < |WinningLines| && LineWins(b, WinningLines[j]) &&
                          ScanLines(b, k) == b[WinningLines[j].0]
    decreases |WinningLines| - k
  {
    if k < |WinningLines| {
      ScanLinesDecides(b, k + 1);
    }
  }

  /** The first winning line in the order rows, columns, diagonals decides the result. */
  lemma FirstLineDecides(b: Board, k: nat)
    requires k < |WinningLines| && LineWins(b, WinningLines[k])
    requires forall i :: 0 <= i < k ==> !LineWins(b, WinningLines[i])
    ensures StateOfBoard(b) == b[WinningLines[k].0]
  {
    ScanLinesDecides(b, 0);
  }

  /** A board with markers on at most two cells has no complete line: every line covers three distinct cells. */
  lemma TwoMarkersNoLine(b: Board, x: Cell, y: Cell)
    requires forall c: Cell :: c != x && c != y ==> b[c] == 0
    ensures NoLineWins(b)
  {
    forall k | 0 <= k < |WinningLines| ensures !LineWins(b, WinningLines[k]) {
      var line := WinningLines[k];
      assert line.0 != line.1 && line.1 != line.2 && line.0 != line.2;
    }
  }

  /** Without a complete line the result is -1 when a cell is empty and 0 otherwise. */
  lemma NoLineDecides(b: Board)
    requires NoLineWins(b)
    ensures StateOfBoard(b) == if 0 in b then -1 else 0
  {
    ScanLinesDecides(b, 0);
  }

  /**
    On a board of markers 0, 1, 2 the state is one of -1, 0, 1, 2: a winner
    exactly when some line is complete (and then it is that line's marker),
    a draw exactly when no line is complete and no cell is empty, and -1
    exactly when no line is complete and some cell is empty.
  */
  lemma StateOfBoardOutcome(b: Board)
    requires ValidCells(b)
    ensures StateOfBoard(b) in {-1, 0, 1, 2}
    ensures StateOfBoard(b) in {1, 2} <==> !NoLineWins(b)
    ensures StateOfBoard(b) in {1, 2} ==> HasLine(b, StateOfBoard(b))
    ensures StateOfBoard(b) == 0 <==> NoLineWins(b) && 0 !in b
    ensures StateOfBoard(b) == -1 <==> NoLineWins(b) && 0 in b
  {
    ScanLinesDecides(b, 0);
    if !NoLineWins(b) {
      var j :| 0 <= j < |WinningLines| && LineWins(b, WinningLines[j]) && StateOfBoard(b) == b[WinningLines[j].0];
      assert HasLine(b, StateOfBoard(b));
    }
  }

  /** The comprehension of `get_empty_cells` over the indices i..8. */
  function EmptyFrom(b: Board, i: nat): seq<Cell>
    requires i <= 9
    decreases 9 - i
  {
    if i == 9 then []
    else if b[i] == 0 then [i] + EmptyFrom(b, i + 1)
    else EmptyFrom(b, i + 1)
  }

  lemma {:induction false} EmptyFromSpec(b: Board, i: nat)
    requires i <= 9
    ensures forall c: Cell :: c in EmptyFrom(b, i) <==> i <= c && b[c] == 0
    ensures forall j :: 0 <= j < |EmptyFrom(b, i)| ==> EmptyFrom(b, i)[j] >= i
    ensures StrictlyIncreasing(EmptyFrom(b, i))
    decreases 9 - i
  {
    if i < 9 {
      EmptyFromSpec(b, i + 1);
    }
  }

  /** `get_empty_cells`: exactly the indices of the empty cells, strictly ascending. */
  function EmptyCells(b: Board): (r: seq<Cell>)
    ensures forall c: Cell :: c in r <==> b[c] == 0
    ensures StrictlyIncreasing(r)
  {
    EmptyFromSpec(b, 0);
    EmptyFrom(b, 0)
  }

  /** The number of non-zero entries. */
  function NonZeroCount(s: seq<int>): nat
  {
    if s == [] then 0 else (if s[0] != 0 then 1 else 0) + NonZeroCount(s[1..])
  }

  lemma {:induction false} EmptyFromCount(b: Board, i: nat)
    requires i <= 9
    ensures |EmptyFrom(b, i)| + NonZeroCount(b[i..]) == 9 - i
    decreases 9 - i
  {
    if i < 9 {
      assert b[i..][1..] == b[i + 1..];
      EmptyFromCount(b, i + 1);
    }
  }

  /** The empty cells and the occupied cells together are the nine cells. */
  lemma EmptyCellsCount(b: Board)
    ensures |EmptyCells(b)| + NonZeroCount(b) == 9
  {
    EmptyFromCount(b, 0);
    assert b[0..] == b;
  }

  /** `make_move`: a new board with `location` set to `player`; the argument is a value and stays as it was. */
  function MakeMove(b: Board, location: Cell, player: int): (r: Board)
    ensures r[location] == player
    ensures forall c: Cell :: c != location ==> r[c] == b[c]
  {
    b[location := player]
  }

  /**
    Playing a non-zero marker on an empty cell removes exactly that cell
    from the empty cells; with the order kept, one fewer cell remains.
  */
  lemma MoveRemovesEmptyCell(b: Board, location: Cell, player: int)
    requires b[location] == 0 && player != 0
    ensures forall c: Cell :: c in EmptyCells(MakeMove(b, location, player)) <==>
                              c in EmptyCells(b) && c != location
    ensures |EmptyCells(MakeMove(b, location, player))| == |EmptyCells(b)| - 1
  {
    var before := EmptyCells(b);
    var after := EmptyCells(MakeMove(b, location, player));
    assert Elements(after) == Elements(before) - {location} by {
      forall x | x in Elements(after) ensures x in Elements(before) - {location} {
        assert x in after;
      }
      forall x | x in Elements(before) - {location} ensures x in Elements(after) {
        assert x in before;
      }
    }
    assert location in Elements(before) by {
      assert location in before;
    }
    DistinctCardinality(before);
    DistinctCardinality(after);
  }

  /** The marker symbols, indexed by cell value. */
  const Symbols: seq<char> := ['.', 'O', 'X']

  /** `sep.join(parts)`. */
  function Join(parts: seq<string>, sep: string): string
  {
    if |parts| == 0 then ""
    else if |parts| == 1 then parts[0]
    else parts[0] + sep + Join(parts[1..], sep)
  }

  const RowSeparator: string := "\n--+---+--\n"

  /** The row `s | s | s` of the cells 3r, 3r+1, 3r+2. */
  function Row(b: Board, r: nat): string
    requires r < 3 && ValidCells(b)
  {
    Join([[Symbols[b[3 * r]]], [Symbols[b[3 * r + 1]]], [Symbols[b[3 * r + 2]]]], " | ")
  }

  lemma JoinThree(x: string, y: string, z: string, sep: string)
    ensures Join([x, y, z], sep) == x + sep + y + sep + z
  {
    assert [x, y, z][1..] == [y, z];
    assert [y, z][1..] == [z];
    assert Join([z], sep) == z;
    assert Join([y, z], sep) == y + sep + z;
  }

  lemma RowLayout(b: Board, r: nat)
    requires r < 3 && ValidCells(b)
    ensures |Row(b, r)| == 9
    ensures Row(b, r)[0] == Symbols[b[3 * r]]
    ensures Row(b, r)[4] == Symbols[b[3 * r + 1]]
    ensures Row(b, r)[8] == Symbols[b[3 * r + 2]]
    ensures Row(b, r)[1..4] == " | " && Row(b, r)[5..8] == " | "
  {
    JoinThree([Symbols[b[3 * r]]], [Symbols[b[3 * r + 1]]], [Symbols[b[3 * r + 2]]], " | ");
  }

  /** The lines of `display_board`, joined. */
  function Render(b: Board): string
    requires ValidCells(b)
  {
    Join([Row(b, 0), Row(b, 1), Row(b, 2)], RowSeparator)
  }

  /** Where the symbol of cell c lands in the rendered board. */
  function SymbolPosition(c: Cell): nat
  {
    [0, 4, 8, 20, 24, 28, 40, 44, 48][c]
  }

  /** A nine-character row `s | s | s`. */
  predicate RowShaped(x: string)
  {
    |x| == 9 && x[1..4] == " | " && x[5..8] == " | "
  }

  /** Where each part of three rows joined by the separator lands. */
  lemma JoinedRows(s: string, x: string, y: string, z: string)
    requires RowShaped(x) && RowShaped(y) && RowShaped(z)
    requires s == x + RowSeparator + y + RowSeparator + z
    ensures |s| == 49
    ensures s[0] == x[0] && s[4] == x[4] && s[8] == x[8]
    ensures s[20] == y[0] && s[24] == y[4] && s[28] == y[8]
    ensures s[40] == z[0] && s[44] == z[4] && s[48] == z[8]
    ensures s[9..20] == RowSeparator && s[29..40] == RowSeparator
    ensures s[1..4] == " | " && s[5..8] == " | " && s[21..24] == " | " && s[25..28] == " | "
    ensures s[41..44] == " | " && s[45..48] == " | "
  {
    assert s[0..9] == x && s[20..29] == y && s[40..49] == z;
  }

  lemma RenderLayout(b: Board)
    requires ValidCells(b)
    ensures |Render(b)| == 49
    ensures Render(b)[0] == Symbols[b[0]] && Render(b)[4] == Symbols[b[1]] && Render(b)[8] == Symbols[b[2]]
    ensures Render(b)[20] == Symbols[b[3]] && Render(b)[24] == Symbols[b[4]] && Render(b)[28] == Symbols[b[5]]
    ensures Render(b)[40] == Symbols[b[6]] && Render(b)[44] == Symbols[b[7]] && Render(b)[48] == Symbols[b[8]]
    ensures Render(b)[9..20] == RowSeparator && Render(b)[29..40] == RowSeparator
    ensures Render(b)[1..4] == " | " && Render(b)[5..8] == " | "
    ensures Render(b)[21..24] == " | " && Render(b)[25..28] == " | "
    ensures Render(b)[41..44] == " | " && Render(b)[45..48] == " | "
  {
    var x, y, z := Row(b, 0), Row(b, 1), Row(b, 2);
    RowLayout(b, 0);
    assert x[0] == Symbols[b[0]] && x[4] == Symbols[b[1]] && x[8] == Symbols[b[2]];
    RowLayout(b, 1);
    assert y[0] == Symbols[b[3]] && y[4] == Symbols[b[4]] && y[8] == Symbols[b[5]];
    RowLayout(b, 2);
    assert z[0] == Symbols[b[6]] && z[4] == Symbols[b[7]] && z[8] == Symbols[b[8]];
    JoinThree(x, y, z, RowSeparator);
    JoinedRows(Render(b), x, y, z);
  }

  /**
    `display_board`: three rows of `s | s | s` joined by `\n--+---+--\n`,
    49 characters in all, with cell c's symbol at SymbolPosition(c).
  */
  function DisplayBoard(b: Board): (s: string)
    requires ValidCells(b)
    ensures |s| == 49
    ensures forall c: Cell :: s[SymbolPosition(c)] == Symbols[b[c]]
    ensures s[9..20] == RowSeparator && s[29..40] == RowSeparator
    ensures s[1..4] == " | " && s[5..8] == " | " && s[21..24] == " | " && s[25..28] == " | "
    ensures s[41..44] == " | " && s[45..48] == " | "
  {
    RenderLayout(b);
    var s := Render(b);
    assert forall c: Cell :: s[SymbolPosition(c)] == Symbols[b[c]] by {
      forall c: Cell ensures s[SymbolPosition(c)] == Symbols[b[c]] {
        assert c == 0 || c == 1 || c == 2 || c == 3 || c == 4 || c == 5 || c == 6 || c == 7 || c == 8;
      }
    }
    s
  }

  /** The marker a symbol stands for (the inverse of Symbols); unknown characters read as empty. */
  function MarkerOf(ch: char): int
  {
    if ch == 'O' then 1 else if ch == 'X' then 2 else 0
  }

  /** Reads the nine cells back out of a rendered board. */
  function ReadBoard(s: string): (b: Board)
    requires |s| == 49
  {
    seq(9, i requires 0 <= i < 9 => MarkerOf(s[SymbolPosition(i)]))
  }

  lemma MarkerOfSymbol(v: int)
    requires 0 <= v <= 2
    ensures MarkerOf(Symbols[v]) == v
  {
  }

  /** The rendering loses nothing: the board can be read back from it. */
  lemma DisplayRoundTrip(b: Board)
    requires ValidCells(b)
    ensures ReadBoard(DisplayBoard(b)) == b
  {
    var s := DisplayBoard(b);
    forall c: Cell ensures ReadBoard(s)[c] == b[c] {
      assert ReadBoard(s)[c] == MarkerOf(s[SymbolPosition(c)]);
      MarkerOfSymbol(b[c]);
    }
  }

  /** The winning boards of tests/test_basic.py. */
  lemma KnownWinners()
    ensures StateOfBoard([1, 1, 1, 0, 0, 0, 0, 0, 0]) == 1
    ensures StateOfBoard([0, 0, 0, 2, 2, 2, 0, 0, 0]) == 2
    ensures StateOfBoard([1, 0, 0, 1, 0, 0, 1, 0, 0]) == 1
    ensures StateOfBoard([2, 0, 0, 0, 2, 0, 0, 0, 2]) == 2
    ensures StateOfBoard([0, 0, 1, 0, 1, 0, 1, 0, 0]) == 1
  {
    TopRowWins();
    MiddleRowWins();
    LeftColumnWins();
    DiagonalWins();
    AntiDiagonalWins();
  }

  lemma TopRowWins()
    ensures StateOfBoard([1, 1, 1, 0, 0, 0, 0, 0, 0]) == 1
  {
    FirstLineDecides([1, 1, 1, 0, 0, 0, 0, 0, 0], 0);
  }

  lemma MiddleRowWins()
    ensures StateOfBoard([0, 0, 0, 2, 2, 2, 0, 0, 0]) == 2
  {
    FirstLineDecides([0, 0, 0, 2, 2, 2, 0, 0, 0], 1);
  }

  lemma LeftColumnWins()
    ensures StateOfBoard([1, 0, 0, 1, 0, 0, 1, 0, 0]) == 1
  {
    FirstLineDecides([1, 0, 0, 1, 0, 0, 1, 0, 0], 3);
  }

  lemma DiagonalWins()
    ensures StateOfBoard([2, 0, 0, 0, 2, 0, 0, 0, 2]) == 2
  {
    FirstLineDecides([2, 0, 0, 0, 2, 0, 0, 0, 2], 6);
  }

  lemma AntiDiagonalWins()
    ensures StateOfBoard([0, 0, 1, 0, 1, 0, 1, 0, 0]) == 1
  {
    FirstLineDecides([0, 0, 1, 0, 1, 0, 1, 0, 0], 7);
  }


  /** The drawn board of tests/test_basic.py. */
  lemma KnownDraw()
    ensures StateOfBoard([1, 2, 1, 1, 2, 1, 2, 1, 2]) == 0
  {
    NoLineDecides([1, 2, 1, 1, 2, 1, 2, 1, 2]);
  }

  /** The unfinished boards of tests/test_basic.py. */
  lemma KnownOngoing()
    ensures StateOfBoard(CreateBoard()) == -1
    ensures StateOfBoard([1, 0, 0, 0, 2, 0, 0, 0, 1]) == -1
    ensures StateOfBoard([1, 2, 0, 0, 1, 0, 0, 0, 0]) == -1
  {
    NoLineDecides(CreateBoard());
    NoLineDecides([1, 0, 0, 0, 2, 0, 0, 0, 1]);
    NoLineDecides([1, 2, 0, 0, 1, 0, 0, 0, 0]);
  }

  /** The concrete empty-cell lists of tests/test_basic.py. */
  lemma KnownEmptyCells()
    ensures EmptyCells(CreateBoard()) == [0, 1, 2, 3, 4, 5, 6, 7, 8]
    ensures EmptyCells([1, 0, 2, 0, 1, 0, 0, 0, 2]) == [1, 3, 5, 6, 7]
    ensures EmptyCells([1, 2, 1, 2, 1, 2, 0, 2, 1]) == [6]
  {
    var start := CreateBoard();
    assert EmptyFrom(start, 6) == [6, 7, 8];
    assert EmptyFrom(start, 3) == [3, 4, 5, 6, 7, 8];
    assert EmptyFrom(start, 0) == [0, 1, 2, 3, 4, 5, 6, 7, 8];
    var partial: Board := [1, 0, 2, 0, 1, 0, 0, 0, 2];
    assert EmptyFrom(partial, 6) == [6, 7];
    assert EmptyFrom(partial, 3) == [3, 5, 6, 7];
    assert EmptyFrom(partial, 0) == [1, 3, 5, 6, 7];
    var full: Board := [1, 2, 1, 2, 1, 2, 0, 2, 1];
    assert EmptyFrom(full, 6) == [6];
    assert EmptyFrom(full, 3) == [6];
  }

  /** Any ascending list of exactly the empty cells is the result of `get_empty_cells`. */
  lemma EmptyCellsAre(b: Board, cells: seq<Cell>)
    requires StrictlyIncreasing(cells)
    requires forall c: Cell :: c in cells <==> b[c] == 0
    ensures EmptyCells(b) == cells
  {
    forall x: int ensures x in EmptyCells(b) <==> x in cells {
      if 0 <= x < 9 {
        var c: Cell := x;
        assert c in EmptyCells(b) <==> b[c] == 0;
      }
    }
    IncreasingUnique(EmptyCells(b), cells);
  }

  /** A fresh board is ongoing with all nine cells empty. */
  lemma CreateBoardIsOpen()
    ensures EmptyCells(CreateBoard()) == [0, 1, 2, 3, 4, 5, 6, 7, 8]
    ensures StateOfBoard(CreateBoard()) == -1
  {
    KnownEmptyCells();
    KnownOngoing();
  }
}
