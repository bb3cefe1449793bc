/** The Game document of models/Game.js: two required player names, a
    required state string defaulting to "wait/p1", a required board
    defaulting to nine empty cells, and the store-maintained timestamp. */
module GameSchema {
  import opened Wrappers

  const BoardSize: nat := 9
  const EmptyCell: string := ""
  const InitialState: string := "wait/p1"

  /** The schema's default board. */
  function InitialBoard(): (b: seq<string>)
    ensures |b| == BoardSize
    ensures forall i :: 0 <= i < |b| ==> b[i] == EmptyCell
  {
    seq(BoardSize, _ => EmptyCell)
  }

  /** A stored game. `id` stands for the store-assigned `_id`; `updatedAt`
      is the timestamp the store keeps, as an abstract number. */
  datatype GameDoc = GameDoc(
    id: nat,
    player1: string,
    player2: string,
    state: string,
    board: seq<string>,
    updatedAt: nat)

  /** The schema paths whose `required` validator failed. */
  datatype ValidationError = MissingRequired(paths: set<string>)

  /** A required String path is satisfied only by a non-empty string. */
  predicate Present(s: string) {
    s != ""
  }

  /** What every stored document satisfies: the required paths are
      present, and the board keeps the default's nine cells. */
  predicate WellFormed(d: GameDoc) {
    Present(d.player1) && Present(d.player2) && Present(d.state) &&
    |d.board| == BoardSize
  }

  /** `Game.create({player1, player2})`: the defaults fill state and board,
      and validation rejects a missing player. */
  function Create(id: nat, player1: string, player2: string, now: nat): (r: Result<GameDoc, ValidationError>)
    ensures r.Success? <==> Present(player1) && Present(player2)
    ensures r.Success? ==>
      && r.value.id == id
      && r.value.player1 == player1
      && r.value.player2 == player2
      && r.value.state == InitialState
      && |r.value.board| == BoardSize
      && (forall i :: 0 <= i < BoardSize ==> r.value.board[i] == EmptyCell)
      && r.value.updatedAt == now
      && WellFormed(r.value)
    ensures r.Failure? ==>
      forall path :: path in r.error.paths <==>
        (path == "player1" && !Present(player1)) || (path == "player2" && !Present(player2))
  {
    var missing := (if Present(player1) then {} else {"player1"})
                 + (if Present(player2) then {} else {"player2"});
    if missing == {} then
      Success(GameDoc(id, player1, player2, InitialState, InitialBoard(), now))
    else
      Failure(MissingRequired(missing))
  }
}
