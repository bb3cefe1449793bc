/** The game collection as a sequence of documents, and the read-only
    queries of routes/game.js: `GET /info/:id` and `GET /user/:username`. */
module GameStore {
  import opened Wrappers
  import opened GameSchema

  /** Every stored document passed validation, and `_id`s are unique. */
  predicate ValidStore(store: seq<GameDoc>) {
    && (forall i :: 0 <= i < |store| ==> WellFormed(store[i]))
    && (forall i, j :: 0 <= i < j < |store| ==> store[i].id != store[j].id)
  }

  /** No stored document has this id. */
  predicate IdUnused(store: seq<GameDoc>, id: nat) {
    forall i :: 0 <= i < |store| ==> store[i].id != id
  }

  /** Position of the document `findOne({ _id: id })` returns. */
  function IndexOfId(store: seq<GameDoc>, id: nat): (r: Option<nat>)
    ensures r.None? <==> IdUnused(store, id)
    ensures r.Some? ==> r.value < |store| && store[r.value].id == id
    ensures r.Some? && ValidStore(store) ==>
      forall j :: 0 <= j < |store| && store[j].id == id ==> j == r.value
  {
    FirstMatch(store, (g: GameDoc) => g.id == id)
  }

  /** `GET /info/:id`: the game with that id, or not found. */
  function FindById(store: seq<GameDoc>, id: nat): (r: Option<GameDoc>)
    ensures r.None? <==> IdUnused(store, id)
    ensures r.Some? ==> r.value in store && r.value.id == id
  {
    match IndexOfId(store, id)
    case None => None
    case Some(i) => Some(store[i])
  }

  predicate Involves(g: GameDoc, username: string) {
    g.player1 == username || g.player2 == username
  }

  /** `$or: [{ player1: u }, { player2: u }]`, in store order. */
  function Involving(store: seq<GameDoc>, username: string): (r: seq<GameDoc>)
    ensures forall g :: multiset(r)[g] == if Involves(g, username) then multiset(store)[g] else 0
  {
    if |store| == 0 then []
    else
      assert store == [store[0]] + store[1..];
      (if Involves(store[0], username) then [store[0]] else []) + Involving(store[1..], username)
  }

  /** Most recently updated first, as `.sort({ updatedAt: -1 })` orders. */
  predicate NewestFirst(s: seq<GameDoc>) {
    forall i, j :: 0 <= i < j < |s| ==> s[i].updatedAt >= s[j].updatedAt
  }

  function InsertByRecency(g: GameDoc, s: seq<GameDoc>): (r: seq<GameDoc>)
    requires NewestFirst(s)
    ensures NewestFirst(r)
    ensures multiset(r) == multiset(s) + multiset{g}
  {
    if |s| == 0 then [g]
    else if g.updatedAt >= s[0].updatedAt then [g] + s
    else
      var rest := InsertByRecency(g, s[1..]);
      assert forall x :: x in rest ==> x.updatedAt <= s[0].updatedAt by {
        forall x | x in rest ensures x.updatedAt <= s[0].updatedAt {
          assert x in multiset(rest);
          if x != g {
            assert x in multiset(s[1..]);
          }
        }
      }
      assert s == [s[0]] + s[1..];
      [s[0]] + rest
  }

  function SortByRecency(s: seq<GameDoc>): (r: seq<GameDoc>)
    ensures NewestFirst(r)
    ensures multiset(r) == multiset(s)
  {
    if |s| == 0 then []
    else
      assert s == [s[0]] + s[1..];
      InsertByRecency(s[0], SortByRecency(s[1..]))
  }

  /** `GET /user/:username`: exactly the games the user plays in, each as
      often as it is stored, most recently updated first. */
  function GamesOf(store: seq<GameDoc>, username: string): (r: seq<GameDoc>)
    ensures NewestFirst(r)
    ensures forall g :: multiset(r)[g] == if Involves(g, username) then multiset(store)[g] else 0
    ensures forall g :: g in r <==> g in store && Involves(g, username)
  {
    var r := SortByRecency(Involving(store, username));
    assert forall g :: g in r <==> g in multiset(r);
    r
  }
}
