/** The move handler `PUT /play/:id/:piece` (routes/game.js:134-195), as
    written: load the game, write the piece into the board in place, scan
    the winning combinations, and set the state. No occupancy, turn or
    finished-game check is made. */
module PlayMove {
  import opened Wrappers
  import opened GameSchema
  import opened GameStore
  import opened WinDetection

  /** `win/${piece === "x" ? "p1" : "p2"}`: any piece other than "x" is
      credited to player 2. */
  function WinState(piece: string): (s: string)
    ensures s == "win/p1" <==> piece == "x"
    ensures s == "win/p1" || s == "win/p2"
  {
    var s := "win/" + (if piece == "x" then "p1" else "p2");
    assert s[5] == if piece == "x" then '1' else '2';
    s
  }

  /** `"wait/" + piece === "x" ? "p2" : "p1"` as JavaScript parses it: the
      concatenation is compared with "x", which it can never equal. */
  function NoWinStateAsWritten(piece: string): (s: string)
    ensures s == "p1"
  {
    if "wait/" + piece == "x" then "p2" else "p1"
  }

  /** The state the handler stores after the scan of the updated board. */
  function NextState(b: seq<string>, piece: string): (s: string)
    requires |b| == BoardSize
    ensures s == "win/p1" <==> SourceWon(b) && piece == "x"
    ensures s == "win/p2" <==> SourceWon(b) && piece != "x"
    ensures s == "p1" <==> !SourceWon(b)
    ensures s != "wait/p1" && s != "wait/p2"
  {
    if SourceWon(b) then WinState(piece) else NoWinStateAsWritten(piece)
  }

  /** The loaded game document, whose board array the handler updates. */
  class Game {
    var id: nat
    var player1: string
    var player2: string
    var state: string
    var board: array<string>
    var updatedAt: nat

    ghost predicate Valid()
      reads this
    {
      board.Length == BoardSize
    }

    /** The document value this object holds. */
    function Doc(): GameDoc
      reads this, board
    {
      GameDoc(id, player1, player2, state, board[..], updatedAt)
    }

    /** `Game.findOne` materialising a stored document. */
    constructor Load(d: GameDoc)
      requires |d.board| == BoardSize
      ensures Valid() && fresh(board)
      ensures Doc() == d
    {
      id, player1, player2, state, updatedAt := d.id, d.player1, d.player2, d.state, d.updatedAt;
      board := new string[BoardSize](i => if 0 <= i < |d.board| then d.board[i] else EmptyCell);
      new;
      assert board[..] == d.board;
    }

    /** routes/game.js:148-185: overwrite one cell whatever it holds and
        whatever the state is, then set the state from the scan. */
    method Play(box: int, piece: string)
      requires Valid() && 0 <= box < BoardSize
      modifies this, board
      ensures Valid() && board == old(board)
      ensures board[..] == old(board[..])[box := piece]
      ensures state == NextState(board[..], piece)
      ensures id == old(id) && player1 == old(player1) && player2 == old(player2)
      ensures updatedAt == old(updatedAt)
    {
      board[box] := piece;
      var gameWon := ScanWinningCombinations(board);
      if gameWon {
        state := WinState(piece);
      } else {
        state := NoWinStateAsWritten(piece);
      }
    }
  }

  /** The document after a move, as a value. */
  function Played(d: GameDoc, box: nat, piece: string): (r: GameDoc)
    requires |d.board| == BoardSize && box < BoardSize
    ensures |r.board| == BoardSize && r.board[box] == piece
    ensures forall j :: 0 <= j < BoardSize && j != box ==> r.board[j] == d.board[j]
    ensures r.state == NextState(r.board, piece)
    ensures r.id == d.id && r.player1 == d.player1 && r.player2 == d.player2
    ensures r.updatedAt == d.updatedAt
  {
    var b := d.board[box := piece];
    d.(board := b, state := NextState(b, piece))
  }

  /** Nothing about the previous state or the previous content of the
      target cell influences a move: a finished game, an occupied cell and
      a piece played out of turn are all accepted alike. */
  lemma PlayedIgnoresStateAndCell(d: GameDoc, box: nat, piece: string, state: string, cell: string)
    requires |d.board| == BoardSize && box < BoardSize
    ensures Played(d.(state := state, board := d.board[box := cell]), box, piece) == Played(d, box, piece)
  {
  }

  /** A move on a board that has no equal line, even on a game already won
      and on an occupied cell, leaves the state "p1" (not a win, and not
      "wait/p2"). */
  lemma MoveOnWonGameAccepted()
    ensures
      var before := GameDoc(0, "ann", "bob", "win/p2",
                            ["x", "o", "x", "x", "o", "o", "o", "x", "x"], 0);
      var after := Played(before, 0, "x");
      after.board == before.board && after.state == "p1"
  {
  }

  /** Every first move on a new game is reported as won by the mover, so a
      game never reaches "wait/p2". */
  lemma FirstMoveWins(d: GameDoc, box: nat, piece: string)
    requires d.board == InitialBoard() && box < BoardSize
    ensures Played(d, box, piece).state == WinState(piece)
    ensures piece == "x" ==> Played(d, box, piece).state == "win/p1"
  {
    FirstMarkAlwaysReportedWon(box, piece);
  }

  datatype PlayOutcome = GameNotFound | MoveRecorded

  /** The whole handler against the store: a missing id leaves everything
      unchanged; otherwise the found game's final board and state replace
      it, stamped with the store's time `now`. */
  method HandlePlay(store: seq<GameDoc>, id: nat, box: int, piece: string, now: nat)
    returns (outcome: PlayOutcome, store': seq<GameDoc>)
    requires ValidStore(store)
    requires 0 <= box < BoardSize
    ensures outcome == GameNotFound <==> IdUnused(store, id)
    ensures outcome == GameNotFound ==> store' == store
    ensures outcome == MoveRecorded ==>
      var i := IndexOfId(store, id).value;
      store' == store[i := Played(store[i], box, piece).(updatedAt := now)]
    ensures ValidStore(store')
  {
    var found := IndexOfId(store, id);
    if found.None? {
      outcome, store' := GameNotFound, store;
    } else {
      var i := found.value;
      var game := new Game.Load(store[i]);
      game.Play(box, piece);
      game.updatedAt := now;
      outcome, store' := MoveRecorded, store[i := game.Doc()];
      assert store'[i] == Played(store[i], box, piece).(updatedAt := now);
    }
  }
}
