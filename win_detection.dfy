/** The win test of the move handler (routes/game.js:155-174): eight fixed
    index triples and a flag-and-break scan over them. `SourceWon` is what
    the scan computes, as written; `HasWinner` is the intended detector,
    which also asks that the equal cells be non-empty. */
module WinDetection {
  import opened GameSchema

  /** One winning combination: three board indices. */
  datatype Line = Line(first: nat, second: nat, third: nat)

  /** The `winningCombinations` table, in the source's order. */
  const WinningCombinations: seq<Line> := [
    Line(0, 1, 2),
    Line(3, 4, 5),
    Line(6, 7, 8),
    Line(0, 3, 6),
    Line(1, 4, 7),
    Line(2, 5, 8),
    Line(0, 4, 8),
    Line(2, 4, 6)
  ]

  predicate OnBoard(l: Line) {
    l.first < BoardSize && l.second < BoardSize && l.third < BoardSize
  }

  /** The table holds eight triples of distinct cells, all on the board. */
  lemma CombinationsAreOnBoard()
    ensures |WinningCombinations| == 8
    ensures forall k :: 0 <= k < |WinningCombinations| ==> OnBoard(WinningCombinations[k])
    ensures forall k :: 0 <= k < |WinningCombinations| ==>
      WinningCombinations[k].first < WinningCombinations[k].second < WinningCombinations[k].third
  {
  }

  /** The source's test of one combination: two strict equalities, with no
      guard against the empty cell. */
  predicate ThreeEqual(b: seq<string>, l: Line)
    requires |b| == BoardSize && OnBoard(l)
  {
    b[l.first] == b[l.second] && b[l.second] == b[l.third]
  }

  /** `gameWon` after the scan, as written: some combination has three equal
      cells, whatever they hold. */
  predicate SourceWon(b: seq<string>)
    requires |b| == BoardSize
  {
    exists k :: 0 <= k < |WinningCombinations| && ThreeEqual(b, WinningCombinations[k])
  }

  /** The scan of routes/game.js:155-174 over the board array: the flag
      starts false, the first equal combination sets it and breaks. */
  method ScanWinningCombinations(board: array<string>) returns (gameWon: bool)
    requires board.Length == BoardSize
    ensures gameWon == SourceWon(board[..])
  {
    gameWon := false;
    var k := 0;
    while k < |WinningCombinations|
      invariant 0 <= k <= |WinningCombinations|
      invariant forall j :: 0 <= j < k ==> !ThreeEqual(board[..], WinningCombinations[j])
    {
      var combination := WinningCombinations[k];
      if board[combination.first] == board[combination.second] &&
         board[combination.second] == board[combination.third]
      {
        assert ThreeEqual(board[..], WinningCombinations[k]);
        gameWon := true;
        break;
      }
      k := k + 1;
    }
  }

  // An independent, geometric reading of the same test: cell (row, col) is
  // index 3 * row + col.

  function Cell(b: seq<string>, row: nat, col: nat): string
    requires |b| == BoardSize && row < 3 && col < 3
  {
    b[3 * row + col]
  }

  predicate RowEqual(b: seq<string>, row: nat)
    requires |b| == BoardSize && row < 3
  {
    Cell(b, row, 0) == Cell(b, row, 1) == Cell(b, row, 2)
  }

  predicate ColumnEqual(b: seq<string>, col: nat)
    requires |b| == BoardSize && col < 3
  {
    Cell(b, 0, col) == Cell(b, 1, col) == Cell(b, 2, col)
  }

  predicate DiagonalEqual(b: seq<string>)
    requires |b| == BoardSize
  {
    (Cell(b, 0, 0) == Cell(b, 1, 1) == Cell(b, 2, 2)) ||
    (Cell(b, 0, 2) == Cell(b, 1, 1) == Cell(b, 2, 0))
  }

  predicate GridLineEqual(b: seq<string>)
    requires |b| == BoardSize
  {
    (exists row: nat :: row < 3 && RowEqual(b, row)) ||
    (exists col: nat :: col < 3 && ColumnEqual(b, col)) ||
    DiagonalEqual(b)
  }

  /** The table is exactly the three rows, three columns and two diagonals. */
  lemma SourceWonIsGridLine(b: seq<string>)
    requires |b| == BoardSize
    ensures SourceWon(b) <==> GridLineEqual(b)
  {
    var w := WinningCombinations;
    if SourceWon(b) {
      var k :| 0 <= k < |w| && ThreeEqual(b, w[k]);
      if k < 3 {
        assert RowEqual(b, k);
      } else if k < 6 {
        assert ColumnEqual(b, k - 3);
      } else {
        assert DiagonalEqual(b);
      }
    }
    if GridLineEqual(b) {
      if row: nat :| row < 3 && RowEqual(b, row) {
        assert ThreeEqual(b, w[row]);
      } else if col: nat :| col < 3 && ColumnEqual(b, col) {
        assert ThreeEqual(b, w[3 + col]);
      } else if Cell(b, 0, 0) == Cell(b, 1, 1) == Cell(b, 2, 2) {
        assert ThreeEqual(b, w[6]);
      } else {
        assert ThreeEqual(b, w[7]);
      }
    }
  }

  /** A combination whose three cells are all empty. */
  predicate HasEmptyLine(b: seq<string>)
    requires |b| == BoardSize
  {
    exists k :: 0 <= k < |WinningCombinations| &&
      ThreeEqual(b, WinningCombinations[k]) && b[WinningCombinations[k].first] == EmptyCell
  }

  /** The intended detector: three equal NON-EMPTY cells on a line. */
  predicate HasWinner(b: seq<string>)
    requires |b| == BoardSize
  {
    exists k :: 0 <= k < |WinningCombinations| &&
      ThreeEqual(b, WinningCombinations[k]) && b[WinningCombinations[k].first] != EmptyCell
  }

  /** As written, the scan reports a win exactly when there is a real winner
      or merely an all-empty line. */
  lemma SourceWonIsWinnerOrEmptyLine(b: seq<string>)
    requires |b| == BoardSize
    ensures SourceWon(b) <==> HasWinner(b) || HasEmptyLine(b)
  {
  }

  /** Any board with an all-empty combination is reported won, the default
      board first of all. */
  lemma EmptyBoardReportedWon()
    ensures SourceWon(InitialBoard())
    ensures !HasWinner(InitialBoard())
  {
    assert ThreeEqual(InitialBoard(), WinningCombinations[0]);
  }

  /** A board holding at most one mark still has an all-empty line, so the
      scan reports it won: every first move of a game wins as written. */
  lemma FirstMarkAlwaysReportedWon(box: nat, piece: string)
    requires box < BoardSize
    ensures SourceWon(InitialBoard()[box := piece])
    ensures !HasWinner(InitialBoard()[box := piece])
  {
    var b := InitialBoard()[box := piece];
    if box < 3 {
      assert ThreeEqual(b, WinningCombinations[2]);
    } else {
      assert ThreeEqual(b, WinningCombinations[0]);
    }
  }

  /** The intended detector sees every line filled with one non-empty mark. */
  lemma FilledLineWins(b: seq<string>, k: nat, mark: string)
    requires |b| == BoardSize && k < |WinningCombinations| && mark != EmptyCell
    requires b[WinningCombinations[k].first] == mark
    requires b[WinningCombinations[k].second] == mark
    requires b[WinningCombinations[k].third] == mark
    ensures HasWinner(b) && SourceWon(b)
  {
  }
}
