# Tic-tac-toe backend: the game routes as a verified model

This project models the game side of a small multiplayer tic-tac-toe
backend. A game is a document with two player names, a state string and a
nine-cell board. The model covers four actions:

- create a game between two registered users (`POST /new`);
- look up a game by id (`GET /info/:id`);
- list a user's games, most recently updated first (`GET /user/:username`);
- play a piece on a cell (`PUT /play/:id/:piece`).

The move handler is modelled **as written**, including its latent bugs:

- a line of three empty cells counts as a win;
- after a non-winning move the state is always the literal `"p1"`;
- no occupancy, turn or finished-game check is made.

A separate module gives the evidently intended move, with its own proofs.
Evidently intended: a win needs three equal non-empty cells, and after a
non-winning move the opponent's turn follows. The code does neither, and
the handler model follows the code.

Modules, one per file:

- `Wrappers`: `Option`, `Result`, and `FirstMatch`, the first-match search that every `findOne` here uses.
- `GameSchema` (models/Game.js): the `GameDoc` value, the defaults, and `Create`. `Create` applies Mongoose's `required` validation, which rejects an absent or empty string.
- `GameStore`: the collection as a `seq<GameDoc>`, its invariant (every document well formed, ids unique) and the two read-only routes.
- `WinDetection`: the `winningCombinations` table, the flag-and-break scan over the board array, a geometric reference reading, and the intended detector `HasWinner`.
- `PlayMove`: the loaded document as a `class Game` with a `board: array<string>` that `Play` updates in place, and the whole handler `HandlePlay` against the store.
- `NewGameRoute`: the `POST /new` decision chain and the append to the store.
- `IntendedMove`: the corrected move, `ApplyMove`, with a turn-consistency invariant it preserves.

The store's clock and id generation are inputs: `now: nat` stands for
`updatedAt`, and `freshId` for the `_id` the store assigns. The user
collection is a map from email to username.

## Model

| member | source | states |
|---|---|---|
| `GameSchema.InitialBoard` | models/Game.js:8-12 | the default board has exactly nine cells, all `""` |
| `GameSchema.Create` | models/Game.js:3-15 | creation succeeds exactly when both players are non-empty; the new game has those players, state `"wait/p1"`, nine empty cells and the store's timestamp, and is well formed; a failure names exactly the missing player paths |
| `GameStore.IndexOfId` | routes/game.js:137 | finds a position holding the id exactly when some stored game has it; in a valid store it is the only such position |
| `GameStore.FindById` | routes/game.js:19-47 | `/info/:id` returns a stored game with that id, and not-found exactly when no game has it |
| `GameStore.Involving` | routes/game.js:52-53 | the `$or` filter keeps each game the user plays in, as many times as it is stored, and no other game |
| `GameStore.InsertByRecency` | routes/game.js:54 | inserting into a newest-first list keeps it newest-first and adds exactly that game |
| `GameStore.SortByRecency` | routes/game.js:54 | the sort on `updatedAt: -1` gives a newest-first permutation of its input |
| `GameStore.GamesOf` | routes/game.js:49-70 | `/user/:username` returns exactly the user's games, with their multiplicities, most recently updated first |
| `WinDetection.CombinationsAreOnBoard` | routes/game.js:156-165 | the table holds eight triples of distinct cells, all within the nine-cell board |
| `WinDetection.ScanWinningCombinations` | routes/game.js:155-174 | the flag-and-break loop over the board array ends with `gameWon` true exactly when some listed triple has three equal cells; the early break does not change the result |
| `WinDetection.SourceWonIsGridLine` | routes/game.js:156-169 | the scan's result is exactly "some row, column or diagonal of the 3×3 grid has equal cells" |
| `WinDetection.SourceWonIsWinnerOrEmptyLine` | routes/game.js:167-169 | as written, a win is reported exactly when there is a real winner or merely an all-empty line |
| `WinDetection.EmptyBoardReportedWon` | routes/game.js:167-171 | the default board counts as won for the scan, though it has no real winner |
| `WinDetection.FirstMarkAlwaysReportedWon` | routes/game.js:148-171 | after one mark on the default board, at any cell and of any piece, the scan reports a win while no real winner exists |
| `WinDetection.FilledLineWins` | routes/game.js:166-172 | a listed triple filled with one non-empty mark is a win for both the scan and the intended detector |
| `PlayMove.WinState` | routes/game.js:176-179 | the win state is `"win/p1"` exactly when the piece is `"x"`, and `"win/p2"` for every other piece string |
| `PlayMove.NoWinStateAsWritten` | routes/game.js:180-185 | the non-win state as JavaScript parses it is `"p1"` for every piece |
| `PlayMove.NextState` | routes/game.js:176-185 | the stored state is `"win/p1"` iff won and the piece is `"x"`, `"win/p2"` iff won and the piece is anything else, `"p1"` iff not won; never a `wait/` state |
| `PlayMove.Game.Load` | routes/game.js:137-148 | the loaded object holds exactly the stored document, with a fresh nine-cell board array |
| `PlayMove.Game.Play` | routes/game.js:148-185 | writes the piece into the array at `box`, whatever the cell held and whatever the state; leaves the other eight cells, the players, the id and the timestamp unchanged; state becomes `NextState` of the new board |
| `PlayMove.Played` | routes/game.js:148-185 | the document after a move: nine cells, `box` holds the piece, the other cells are unchanged, the state is `NextState` of the new board, the other fields are unchanged |
| `PlayMove.PlayedIgnoresStateAndCell` | routes/game.js:137-149 | the result of a move is the same whatever the previous state and whatever the target cell held, so no occupancy, turn or finished-game check exists |
| `PlayMove.MoveOnWonGameAccepted` | routes/game.js:148-185 | a game already in `"win/p2"` accepts `"x"` on an occupied cell, and its state falls back to `"p1"` |
| `PlayMove.FirstMoveWins` | routes/game.js:148-179 | every first move on a new game ends it as a win for the mover (`"win/p1"` for `"x"`) |
| `PlayMove.HandlePlay` | routes/game.js:134-195 | not-found exactly when no game has the id, with the store unchanged; otherwise only the found game changes, to `Played` of it stamped with `now`; the store invariant is kept |
| `NewGameRoute.Ongoing` | routes/game.js:94-100 | finds the first stored game between the two users in either seat order, and nothing exactly when there is none |
| `NewGameRoute.OngoingEitherOrder` | routes/game.js:96-99 | the lookup gives the same answer whichever user is named first |
| `NewGameRoute.OngoingAfterCreate` | routes/game.js:94-114 | after a game between the pair is appended, a second request finds a game between them: the earlier one if it existed, otherwise the appended one |
| `NewGameRoute.NewGame` | routes/game.js:73-131 | rejects exactly when the emails are equal or either is unregistered, with the store unchanged; returns an existing game between the two usernames unchanged; otherwise appends exactly one game with those usernames and the default board and state, unless validation fails; the store invariant is kept |
| `IntendedMove.NextTurnState` | routes/game.js:183 | the intended flip gives a waiting state, `"wait/p2"` exactly after `"x"` |
| `IntendedMove.TurnFlipAsWrittenNeverWaits` | routes/game.js:183 | the flip as written never gives a waiting state and disagrees with the intended one for every piece |
| `IntendedMove.ApplyMove` | routes/game.js:147-185 | rejects a cell out of range or a non-mark piece as invalid input; rejects a finished game, an occupied cell or an out-of-turn piece as illegal; otherwise sets only an empty cell and computes the state with the intended detector and flip |
| `IntendedMove.InitialGameConsistent` | models/Game.js:7-11 | the default game is turn-consistent: no marks, `"wait/p1"`, no winner |
| `IntendedMove.ApplyMovePreservesConsistency` | routes/game.js:147-185 | an accepted intended move keeps cells in {"", "x", "o"}, keeps marks alternating from `"x"`, and keeps waiting games free of a winner |
| `IntendedMove.FirstMoveAtCentre` | routes/game.js:176-185 | intended: `"x"` at the centre of a new game gives that board and `"wait/p2"` |
| `IntendedMove.CompletingTopRowWins` | routes/game.js:176-179 | intended: completing the top row with `"x"` gives `"win/p1"` |
| `IntendedMove.NoMoveAfterWin` | routes/game.js:137-149 | intended: a game in `"win/p1"` or `"win/p2"` rejects every move |

## Findings

| source | as written | input that shows it | evidently intended | confidence | as-written member | corrected member |
|---|---|---|---|---|---|---|
| routes/game.js:167-169 | three equal cells win even when all three are `""` | first move `"x"` at 4 on the default board: triple [0,1,2] is all `""`, so the game becomes `"win/p1"` | only three equal non-empty cells win | high; not executed | `WinDetection.FirstMarkAlwaysReportedWon` (with `PlayMove.FirstMoveWins`) | `WinDetection.HasWinner`, proved in `WinDetection.FilledLineWins` and `WinDetection.EmptyBoardReportedWon` |
| routes/game.js:183 | `"wait/" + piece === "x" ? "p2" : "p1"` compares the concatenation with `"x"`, so the state is always `"p1"` | `"x"` on cell 0 of the board `x o x / x o o / o x x` gives `"p1"` | `"wait/p2"` after `"x"`, `"wait/p1"` after `"o"` | high; not executed | `PlayMove.NoWinStateAsWritten` (with `PlayMove.MoveOnWonGameAccepted`) | `IntendedMove.NextTurnState`, proved in `IntendedMove.TurnFlipAsWrittenNeverWaits` and `IntendedMove.FirstMoveAtCentre` |
| routes/game.js:137-149 | the piece is written with no occupancy, turn or finished-game check | `"x"` on occupied cell 0 of a game in `"win/p2"` is accepted | such a move is rejected as illegal | medium; not executed | `PlayMove.PlayedIgnoresStateAndCell` (with `PlayMove.MoveOnWonGameAccepted`) | `IntendedMove.ApplyMove`, proved in `IntendedMove.ApplyMovePreservesConsistency` and `IntendedMove.NoMoveAfterWin` |

The handler model (`PlayMove`) keeps the as-written definitions so that it
matches the code line by line. The corrected definitions are used together
by `IntendedMove.ApplyMove`.

## Left out

- Server bootstrap, environment loading, session middleware, route loading and the database connection (index.js): framework wiring and I/O.
- routes/user.js: registration, login and sessions are not part of this model. Its email regex depends on a foreign regex engine.
- The `authenticateRequests` middleware (routes/game.js:7-16): it only reads the ambient session.
- HTTP status codes and response bodies. The outcome datatypes stand for them. The play handler sends no response on success.
- `PlayMove.HandlePlay`: writes the final in-memory board and state back to the document found by `_id`. The source's `updateOne` calls filter on `id`, which is not a schema path; depending on Mongoose's query filtering they match no document or some other one. The board and the state are also written in two separate, non-atomic updates. Neither is modelled.
- Concurrent requests and lost updates: the model is sequential.
- Out-of-range `box` values: in JavaScript they extend the board array. The handler model takes `0 <= box < 9` as a precondition.
- Malformed id strings: Mongoose's cast error leads to the error response. Ids are abstract numbers here.
- Missing request body fields (an `undefined` email): emails are strings here.
- Database failures other than validation, which lead to the error response.
- `GameStore.GamesOf`: says nothing about the order of games with equal `updatedAt`, because the database does not fix it either.
- `NewGameRoute.Ongoing`: takes the first match in store order; the database's `findOne` order without a sort is unspecified.
- The `createdAt` timestamp: nothing in the routes reads it.
- A draw state: neither the code nor the intended move has one. As written, a full board with no equal line gets `"p1"`; the intended move leaves it in `wait/p1` or `wait/p2`.
