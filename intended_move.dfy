/** The move the handler evidently intends: only "x" and "o" on a cell in
    range, only on an empty cell, only by the player whose turn the state
    names, never on a finished game; a win needs three equal non-empty
    cells, and otherwise the turn passes to the mover's opponent. */
module IntendedMove {
  import opened Wrappers
  import opened GameSchema
  import opened WinDetection
  import PlayMove

  const PlayerOneMark: string := "x"
  const PlayerTwoMark: string := "o"

  predicate IsMark(piece: string) {
    piece == PlayerOneMark || piece == PlayerTwoMark
  }

  predicate IsWaiting(state: string) {
    state == "wait/p1" || state == "wait/p2"
  }

  /** The mark of the player the waiting state names. */
  function TurnMark(state: string): (m: string)
    requires IsWaiting(state)
    ensures IsMark(m)
  {
    if state == "wait/p1" then PlayerOneMark else PlayerTwoMark
  }

  /** `"wait/" + (piece === "x" ? "p2" : "p1")`: the opponent of the mover
      waits next. */
  function NextTurnState(piece: string): (s: string)
    ensures IsWaiting(s)
    ensures s == "wait/p2" <==> piece == PlayerOneMark
  {
    var s := "wait/" + (if piece == PlayerOneMark then "p2" else "p1");
    assert s[6] == if piece == PlayerOneMark then '2' else '1';
    s
  }

  /** The turn flip as written never yields a waiting state, so it agrees
      with the intended one for no piece at all. */
  lemma TurnFlipAsWrittenNeverWaits(piece: string)
    ensures PlayMove.NoWinStateAsWritten(piece) != NextTurnState(piece)
    ensures !IsWaiting(PlayMove.NoWinStateAsWritten(piece))
  {
  }

  datatype MoveError = InvalidInput | IllegalMove

  function IntendedNextState(b: seq<string>, piece: string): string
    requires |b| == BoardSize
  {
    if HasWinner(b) then PlayMove.WinState(piece) else NextTurnState(piece)
  }

  /** A move checked before it is applied; on success the new board and
      state, which the caller persists together. */
  function ApplyMove(board: seq<string>, state: string, box: int, piece: string)
    : (r: Result<(seq<string>, string), MoveError>)
    requires |board| == BoardSize
    ensures r == Failure(InvalidInput) <==> !(0 <= box < BoardSize) || !IsMark(piece)
    ensures r == Failure(IllegalMove) <==>
      0 <= box < BoardSize && IsMark(piece) &&
      (!IsWaiting(state) || board[box] != EmptyCell || piece != TurnMark(state))
    ensures r.Success? ==>
      && 0 <= box < BoardSize && board[box] == EmptyCell
      && IsWaiting(state) && piece == TurnMark(state)
      && |r.value.0| == BoardSize && r.value.0[box] == piece
      && (forall j :: 0 <= j < BoardSize && j != box ==> r.value.0[j] == board[j])
      && r.value.1 == IntendedNextState(r.value.0, piece)
  {
    if !(0 <= box < BoardSize) || !IsMark(piece) then Failure(InvalidInput)
    else if !IsWaiting(state) || board[box] != EmptyCell || piece != TurnMark(state) then
      Failure(IllegalMove)
    else
      var b := board[box := piece];
      Success((b, IntendedNextState(b, piece)))
  }

  /** How many cells hold `mark`. */
  function Count(b: seq<string>, mark: string): nat {
    multiset(b)[mark]
  }

  /** What every game reachable from the schema defaults satisfies: cells
      hold only marks or nothing, the state is one of the four, the marks
      alternate starting with "x", and a waiting game has no winner. */
  predicate Consistent(b: seq<string>, s: string) {
    && |b| == BoardSize
    && (forall i :: 0 <= i < |b| ==> b[i] == EmptyCell || IsMark(b[i]))
    && (IsWaiting(s) || s == "win/p1" || s == "win/p2")
    && (IsWaiting(s) ==> !HasWinner(b))
    && (s == "wait/p1" || s == "win/p2" ==> Count(b, PlayerOneMark) == Count(b, PlayerTwoMark))
    && (s == "wait/p2" || s == "win/p1" ==> Count(b, PlayerOneMark) == Count(b, PlayerTwoMark) + 1)
  }

  /** The schema defaults start a consistent game. */
  lemma InitialGameConsistent()
    ensures Consistent(InitialBoard(), InitialState)
  {
  }

  /** Every accepted intended move keeps the game consistent. */
  lemma ApplyMovePreservesConsistency(b: seq<string>, s: string, box: int, piece: string)
    requires Consistent(b, s)
    requires ApplyMove(b, s, box, piece).Success?
    ensures Consistent(ApplyMove(b, s, box, piece).value.0, ApplyMove(b, s, box, piece).value.1)
  {
  }

  /** Scenario: the first move "x" at the centre passes the turn to p2. */
  lemma FirstMoveAtCentre()
    ensures ApplyMove(InitialBoard(), InitialState, 4, "x") ==
            Success((InitialBoard()[4 := "x"], "wait/p2"))
  {
  }

  /** Scenario: completing the top row wins for p1. */
  lemma CompletingTopRowWins()
    ensures ApplyMove(["x", "x", "", "o", "o", "", "", "", ""], "wait/p1", 2, "x") ==
            Success((["x", "x", "x", "o", "o", "", "", "", ""], "win/p1"))
  {
    var b := ["x", "x", "", "o", "o", "", "", "", ""];
    assert b[2 := "x"] == ["x", "x", "x", "o", "o", "", "", "", ""];
    FilledLineWins(b[2 := "x"], 0, "x");
  }

  /** Scenario: a finished game accepts no further move. */
  lemma NoMoveAfterWin(b: seq<string>, box: int, piece: string)
    requires |b| == BoardSize && 0 <= box < BoardSize && IsMark(piece)
    ensures ApplyMove(b, "win/p1", box, piece) == Failure(IllegalMove)
    ensures ApplyMove(b, "win/p2", box, piece) == Failure(IllegalMove)
  {
  }
}
