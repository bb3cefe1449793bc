/** `POST /new` (routes/game.js:73-131): two distinct registered emails,
    an existing game between the two usernames in either order is returned
    as it is, and otherwise exactly one new game is created with the
    schema defaults. */
module NewGameRoute {
  import opened Wrappers
  import opened GameSchema
  import opened GameStore

  /** The user collection as seen by this route: email to username.
      `User.exists({ email })` is membership, `User.findOne` the lookup. */
  type UserDirectory = map<string, string>

  /** The first check of the route: distinct emails, both registered. */
  predicate ValidPlayers(users: UserDirectory, email1: string, email2: string) {
    email1 != email2 && email1 in users && email2 in users
  }

  /** The game was started between `a` and `b`, in either seat order. */
  predicate Between(g: GameDoc, a: string, b: string) {
    (g.player1 == a && g.player2 == b) || (g.player1 == b && g.player2 == a)
  }

  /** Position of the game the `ongoing` query returns. */
  function Ongoing(store: seq<GameDoc>, a: string, b: string): (r: Option<nat>)
    ensures r.Some? ==> r.value < |store| && Between(store[r.value], a, b)
    ensures r.Some? ==> forall j :: 0 <= j < r.value ==> !Between(store[j], a, b)
    ensures r.None? <==> forall j :: 0 <= j < |store| ==> !Between(store[j], a, b)
  {
    FirstMatch(store, (g: GameDoc) => Between(g, a, b))
  }

  /** The query does not depend on which player asked first. */
  lemma OngoingEitherOrder(store: seq<GameDoc>, a: string, b: string)
    ensures Ongoing(store, a, b) == Ongoing(store, b, a)
  {
  }

  /** Once a game between `a` and `b` has been appended, the query finds a
      game between them; if none existed before, it finds the appended one. */
  lemma OngoingAfterCreate(store: seq<GameDoc>, g: GameDoc, a: string, b: string)
    requires Between(g, a, b)
    ensures Ongoing(store + [g], a, b).Some?
    ensures Ongoing(store, a, b).None? ==> Ongoing(store + [g], a, b) == Some(|store|)
    ensures Ongoing(store, a, b).Some? ==> Ongoing(store + [g], a, b) == Ongoing(store, a, b)
  {
    var s := store + [g];
    assert s[|store|] == g;
    assert forall j :: 0 <= j < |store| ==> s[j] == store[j];
  }

  datatype NewGameOutcome =
    | InvalidUsers
    | AlreadyExists(game: GameDoc)
    | Created(game: GameDoc)
    | CreateFailed(error: ValidationError)

  /** The route handler against the store. `freshId` is the `_id` the store
      assigns and `now` its timestamp for the new document. A failed
      validation of `Game.create` ends in the route's error response. */
  method NewGame(store: seq<GameDoc>, users: UserDirectory, email1: string, email2: string,
                 freshId: nat, now: nat)
    returns (outcome: NewGameOutcome, store': seq<GameDoc>)
    requires ValidStore(store) && IdUnused(store, freshId)
    ensures ValidStore(store')
    ensures outcome.InvalidUsers? <==> !ValidPlayers(users, email1, email2)
    ensures !outcome.Created? ==> store' == store
    ensures ValidPlayers(users, email1, email2) ==>
      var found := Ongoing(store, users[email1], users[email2]);
      && (outcome.AlreadyExists? <==> found.Some?)
      && (found.Some? ==> outcome == AlreadyExists(store[found.value]))
      && (found.None? && Create(freshId, users[email1], users[email2], now).Failure? ==>
            outcome == CreateFailed(Create(freshId, users[email1], users[email2], now).error))
      && (found.None? && Create(freshId, users[email1], users[email2], now).Success? ==>
            outcome == Created(Create(freshId, users[email1], users[email2], now).value))
    ensures outcome.Created? ==>
      && store' == store + [outcome.game]
      && outcome.game.id == freshId
      && outcome.game.player1 == users[email1]
      && outcome.game.player2 == users[email2]
      && outcome.game.state == InitialState
      && outcome.game.board == InitialBoard()
  {
    if !ValidPlayers(users, email1, email2) {
      return InvalidUsers, store;
    }
    var player1, player2 := users[email1], users[email2];
    var found := Ongoing(store, player1, player2);
    if found.Some? {
      return AlreadyExists(store[found.value]), store;
    }
    var created := Create(freshId, player1, player2, now);
    if created.Failure? {
      return CreateFailed(created.error), store;
    }
    outcome, store' := Created(created.value), store + [created.value];
    assert forall j :: 0 <= j < |store| ==> store'[j] == store[j];
  }
}
