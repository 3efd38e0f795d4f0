# Ultimate Tic-Tac-Toe — a verified model of the game logic

This project models the game logic of an Ultimate Tic-Tac-Toe application in Dafny.
The application has two halves:

- A backend holds ordinary 3×3 games. It has a rule engine (`engine.py`) and an in-memory store that maps each game id to its history of states (`router.py`).
- A frontend shows nine such games as the sub-boards of a meta-board:
  - one component per sub-board (`TicTacToe.tsx`) caches its game, filters clicks and reports its outcome;
  - the parent (`App.tsx`) collects the nine outcomes, computes the overall result, confines the next move to one sub-board and keeps the turn.

Every part is a pure function over immutable values:

- A board is a nine-element sequence of `Option<Player>`.
- A store is a `map` from game id to a non-empty `seq` of states.
- A component is a record of its cached state, loading flag and error message.
- HTTP answers are `Result` values: `NotFound`, or `BadRequest` carrying the engine's message.
- The backend call made by a sub-board is an oracle `Request -> Reply`. In `Backed` that oracle is instead the store's move endpoint.
- React's `useEffect` recomputations run synchronously at the end of every transition:
  - `Meta.Settle` recomputes the active board and the overall winner;
  - `Ultimate.Sync` performs the `onWin` reports of all nine sub-boards.

The modules are:

- `Common` holds players, outcomes, `Option` and `Result`.
- `Lines` holds the eight winning lines and the first-complete-line scan that both halves use.
- `Engine` models `engine.py`.
- `Router` models the store behind `router.py`.
- `SubBoard` models `TicTacToe.tsx`.
- `Meta` models `App.tsx`.
- `Ultimate` composes the parent with its nine sub-boards.
- `Backed` connects one sub-board to the real store.

Some behaviours of the code are worth knowing when reading the model:

- **Overall result.** The frontend's `checkWinner` accepts any three equal non-null entries on a line, so it treats "draw" as a third mark:
  - a drawn sub-board blocks X and O from completing a line through it (`Meta.DrawBlocksLine`);
  - three drawn sub-boards on one line complete that line, so the game ends as a draw even while others are undecided (`Meta.ThreeDrawsEndTheGame`).
- **Active board.** The active board is derived from the last cell played and from the results after the sub-boards have reported, not at the moment of the click.
- **Client filter.** A sub-board component only checks its own cached board. The engine does not check whose turn it is.
- **Error view.** After a failed request with a non-empty message, a sub-board shows only the message and a Retry button, so its cells cannot be clicked (`Ultimate.ErrorViewIgnoresClicks`). The view is chosen by the message's truthiness, so an empty message leaves the board on screen and clickable, with no Retry button. Retry creates a new backend game for that sub-board. When it succeeds, the sub-board's earlier marks are gone and its result is undecided again, in the middle of the meta-game (`Ultimate.RetryRestartsBoard`).

## Model

| member | source | states |
|---|---|---|
| Lines.Slots | backend/app/tictactoe/engine.py:9-18 | The eight winning lines are index triples in 0..8, each in ascending order, listed rows, columns, then diagonals. |
| Lines.FirstLineFromSpec | backend/app/tictactoe/engine.py:33-36 | The scan from line `k` finds nothing iff no line from `k` on is complete. Otherwise it returns the common value of the first complete line. |
| Lines.FirstLineSpec | backend/app/tictactoe/engine.py:32-36 | Over a whole grid, the scan answers `None` iff no line has three equal non-empty entries. Otherwise it answers the value of the first such line in the fixed order. |
| Lines.FirstLineIsFirstComplete | frontend/src/App.tsx:55-59 | When the scan finds something, there is a line that is complete, has no complete line before it, and holds that value. |
| Lines.OnlyValueWins | frontend/src/App.tsx:55-59 | If some line is complete and every complete line holds `v`, the scan answers `v`. |
| Lines.EmptyGridNoLine | frontend/src/App.tsx:61-65 | An all-empty grid has no complete line. |
| Engine.Detail | backend/app/tictactoe/engine.py:48-53 | Every refusal carries a non-empty message, the one the exception raises. |
| Engine.CheckWinner | backend/app/tictactoe/engine.py:32-36 | No winner iff no line holds three equal marks; otherwise the winner is the mark of the first such line in order. |
| Engine.NewGame | backend/app/tictactoe/engine.py:43-44 | A fresh game has nine empty cells, no winner, no draw, and flags that agree with its board. |
| Engine.Move | backend/app/tictactoe/engine.py:47-64 | A finished game is refused first, then an index outside 0..8, then an occupied cell. A move is accepted exactly when none applies. An accepted move puts the player's mark at the index and leaves the other eight cells as they were. Its winner is the first line's mark, and its draw flag is set iff the board is full without a winner, so the two are never set together. |
| Engine.EmptyCellsFrom | backend/app/tictactoe/engine.py:67-68 | Lists exactly the empty cells from position `k` on, strictly ascending. |
| Engine.AvailableMoves | backend/app/tictactoe/engine.py:67-68 | `i` is listed iff `i` is a cell and it is empty; the list is strictly ascending. |
| Engine.Status | backend/app/tictactoe/engine.py:71-76 | "in progress" iff the game is not over; "draw" iff there is no winner and the draw flag is set; "<mark> wins" when there is a winner. |
| Engine.EmptyCellsAfterFill | backend/app/tictactoe/engine.py:67-68 | Filling one empty cell removes exactly that index from the empty-cell list and leaves the rest in order. |
| Engine.AvailableAfterMove | backend/app/tictactoe/engine.py:55-68 | After an accepted move, the available moves are the previous ones without the played index, one fewer. |
| Engine.EmptyBoardCells | backend/app/tictactoe/engine.py:67-68 | On an empty board the list from `k` is `k, k+1, …, 8`. |
| Engine.FreshGameOffersAll | backend/tests/test_tictactoe_engine.py:66-69 | A fresh game offers the nine cells 0..8 in order. |
| Engine.AvailableAfterFirstMove | backend/tests/test_tictactoe_engine.py:66-71 | Any first move is accepted; afterwards eight cells are offered and the played one is not among them. |
| Engine.FullIffNoMoves | backend/app/tictactoe/engine.py:39-40 | `_is_full` holds exactly when `available_moves` is empty. |
| Engine.MoveKeepsMarks | backend/app/tictactoe/engine.py:55-56 | A mark once placed stays through every accepted move. |
| Router.ErrorDetail | backend/app/tictactoe/router.py:37-59 | An unknown id gives the detail "Game not found."; a refused move gives the engine's message unchanged, which is never empty. |
| Router.ToDto | backend/app/tictactoe/router.py:16-23 | The reply copies id, board, winner and draw flag. Its status is the engine's status of that state: "<mark> wins" with a winner, "draw" iff there is no winner and the draw flag is set, "in progress" iff the game is not over. |
| Router.CreateGame | backend/app/tictactoe/router.py:26-32 | The store gains the new id with the one-state history of a fresh game. Every other id keeps its history. The requested starting player has no effect. |
| Router.GetState | backend/app/tictactoe/router.py:35-40 | Not found iff the id is unknown; otherwise the reply is the last state of its history. |
| Router.GetHistory | backend/app/tictactoe/router.py:43-48 | Not found iff the id is unknown; otherwise one reply per stored state, in stored order. |
| Router.MakeMove | backend/app/tictactoe/router.py:51-61 | An unknown id is not found and changes nothing. A refused move gives a bad request with the engine's message and changes nothing. Otherwise the history grows by exactly the engine's result, keeps its prefix, and that result is the reply. No other id's history changes. |
| Router.DeleteGame | backend/app/tictactoe/router.py:64-69 | Answers ok iff the id was present. Exactly that id is removed; every other history is unchanged. |
| Router.CreateKeepsGood | backend/app/tictactoe/router.py:26-32 | Creation keeps every stored history a play: a fresh game followed by accepted moves. |
| Router.MakeMoveKeepsGood | backend/app/tictactoe/router.py:56-61 | A move keeps every stored history a play. |
| Router.DeleteKeepsGood | backend/app/tictactoe/router.py:64-69 | Deletion keeps every stored history a play. |
| Router.PlayIsConsistent | backend/app/tictactoe/engine.py:58-62 | Every state of a play has the winner and draw flag its board determines. |
| Router.GetAfterMove | backend/app/tictactoe/router.py:57-61 | After an accepted move, reading the state gives the move's reply, and the history is the old one plus that reply. |
| Router.CreateThenRead | backend/app/tictactoe/router.py:26-48 | Right after creation, the state and the one-entry history show the fresh game. |
| Router.DeleteThenRead | backend/app/tictactoe/router.py:64-69 | After deletion the id is not found by reads or moves, and a second deletion answers not ok. |
| Router.GetHistoryAsWritten | backend/app/tictactoe/router.py:43-48 | The history as the source produces it: all states of a game share one board list, so every entry shows the current board. |
| Router.HistoryAliasingExample | backend/app/tictactoe/engine.py:28-29 | After one move by X on cell 0, the first history entry shows X in cell 0 when states share the board. Kept by value, it shows an empty cell. |
| Router.HistoryShowsEachMove | backend/app/tictactoe/router.py:43-48 | By value, the history starts from the empty board. Each later entry adds one mark in a previously empty cell and changes nothing else. |
| SubBoard.Started | frontend/src/components/TicTacToe.tsx:37-55 | After the creation request answers, the component is not loading. Success installs the game and clears the error; failure keeps the cached game and records the message. |
| SubBoard.HandleClick | frontend/src/components/TicTacToe.tsx:97-119 | A move is sent iff there is a cached game, nothing is in flight, the game is undecided and the cell exists and is empty. Otherwise nothing changes. The request carries the clicked cell and the current player. Success replaces the cache by the reply and reports the cell upward; failure keeps the cache, records the message and reports nothing. |
| SubBoard.CellClick | frontend/src/components/TicTacToe.tsx:178-182 | A click on a disabled sub-board does nothing; otherwise it is handled as above. |
| SubBoard.Reported | frontend/src/components/TicTacToe.tsx:58-67 | Reports `p` iff the cached game's winner is `p`; "draw" iff there is no winner and the draw flag is set; null iff there is no game or it is undecided. |
| SubBoard.CellEnabled | frontend/src/components/TicTacToe.tsx:183-189 | An enabled button lies on a shown, undecided board, with the parent not disabling it, nothing in flight and the cell empty. |
| SubBoard.DisplayValue | frontend/src/components/TicTacToe.tsx:166-167 | Every cell shows the winner once there is one, and its own content before. |
| SubBoard.DisplayMatchesReport | frontend/src/components/TicTacToe.tsx:58-67 | Every cell of a won board shows the winner that the sub-board reports; a drawn or undecided board shows its own cells. |
| SubBoard.ClickSendsIffEnabled | frontend/src/components/TicTacToe.tsx:178-189 | On a shown board, a click reaches the backend exactly when its button is enabled, and then carries the current player. |
| SubBoard.DecidedBoardIsFrozen | frontend/src/components/TicTacToe.tsx:98-100 | A sub-board that reports a result ignores every click. |
| Meta.CheckWinner | frontend/src/App.tsx:48-66 | With all nine sub-boards decided there is always an overall result; a won result is always the value of the first complete line. |
| Meta.CheckWinnerSpec | frontend/src/App.tsx:48-66 | A complete line of equal non-null results decides the overall result, first line first. Without one, the result is "draw" iff all nine are decided and null otherwise. A won game has a complete line of that player's wins. |
| Meta.ActiveFrom | frontend/src/App.tsx:77-88 | No active board iff there is no last cell or that sub-board is decided. An active board is the last cell and names an undecided sub-board. |
| Meta.Settle | frontend/src/App.tsx:77-94 | Afterwards the overall winner is the result of the results and the active board is derived from the last cell. Nothing else changes, and a settled state stays as it is. |
| Meta.Initial | frontend/src/App.tsx:69-75 | The first render has all results null, no overall winner, no active board, X to move and no last cell. |
| Meta.HandleWin | frontend/src/App.tsx:24-30 | Sets the reporting sub-board's result and leaves the other eight results, the turn and the last cell as they were. |
| Meta.OnCellClick | frontend/src/App.tsx:116-122 | Records the cell just played and passes the turn to the other player, leaving the results untouched. |
| Meta.Disabled | frontend/src/App.tsx:123 | Every sub-board is disabled once there is an overall result. Without one, none is disabled when no board is active, and otherwise exactly the sub-boards other than the active one are. |
| Meta.Reset | frontend/src/App.tsx:9-21 | Back to all results null, no overall winner, no active board, X to move, no last cell, with the game key one higher. |
| Meta.Clicks | frontend/src/App.tsx:116-122 | A series of cell clicks changes neither the results nor the game key. |
| Meta.ClicksAlternate | frontend/src/App.tsx:116-122 | Each click flips the turn once: after `n` clicks the player is the starting player flipped `n` times, the same one iff `n` is even. |
| Meta.ClicksFromReset | frontend/src/App.tsx:14-20 | From a reset, X is to move iff an even number of cells have been played. |
| Meta.ActiveBoardIsPlayable | frontend/src/App.tsx:123 | An active board names an undecided sub-board; it is the only one not disabled while the game is undecided. |
| Meta.DrawBlocksLine | frontend/src/App.tsx:55-65 | Two of X's wins and a drawn sub-board on the top row, with the rest undecided, give no overall result: the draw blocks the line. |
| Meta.ThreeDrawsEndTheGame | frontend/src/App.tsx:55-59 | Three drawn sub-boards on the top row give the overall result "draw" with six sub-boards undecided. |
| Meta.DiagonalWinsTheGame | frontend/src/App.tsx:55-59 | Wins for X on the diagonal 0, 4, 8, with no other complete line, give X the game. |
| Ultimate.SyncFrom | frontend/src/App.tsx:113-115 | Reporting sub-boards `k..8` sets exactly their results to what they report. Turn, last cell and key are kept, and the derived fields are settled. |
| Ultimate.Sync | frontend/src/App.tsx:112-125 | After all nine reports, every result mirrors its sub-board and the derived fields are up to date. Turn, last cell and key are kept. |
| Ultimate.SyncIdle | frontend/src/App.tsx:24-30 | Reporting what the parent already holds changes nothing. |
| Ultimate.Start | frontend/src/App.tsx:69-75 | The first screen is synced, X is to move and no board is active. Each sub-board holds what its creation request answered, and only sub-boards without a game show an error. |
| Ultimate.NewGame | frontend/src/App.tsx:9-21 | "New Game" gives a synced game with X to move and no active board. The key is one higher, every sub-board is mounted anew, and only sub-boards without a game show an error. |
| Ultimate.Play | frontend/src/App.tsx:113-125 | A click keeps the game synced, touches no sub-board but the clicked one, and keeps the game key. A move is only sent from a sub-board that shows its board. |
| Ultimate.IgnoredClickChangesNothing | frontend/src/components/TicTacToe.tsx:98-100 | A click that sends nothing leaves the whole game unchanged. |
| Ultimate.SentOnlyWhereAllowed | frontend/src/App.tsx:123 | A move is only sent while the game is undecided, from the active sub-board or from any sub-board when none is active, and from an undecided sub-board. It carries the current player. |
| Ultimate.AcceptedMove | frontend/src/App.tsx:116-122 | An accepted move flips the turn, records the cell, and installs the backend's reply. The next move is confined to the sub-board of that cell iff it is undecided. |
| Ultimate.RefusedMove | frontend/src/components/TicTacToe.tsx:114-118 | A refused move keeps turn, last cell, results and cached game; the sub-board shows the message. |
| Ultimate.ErrorViewIgnoresClicks | frontend/src/components/TicTacToe.tsx:134-143 | A sub-board holding a non-empty error message is in its error view and has no cell buttons: a click on it sends nothing and changes nothing. |
| Ultimate.Retry | frontend/src/components/TicTacToe.tsx:121-143 | Retry acts only on a sub-board in its error view, which then holds what the creation request answered. Every other sub-board, the turn, the last cell and the key stay, and the game is synced. |
| Ultimate.RetryRestartsBoard | frontend/src/components/TicTacToe.tsx:121-132 | A successful retry replaces the sub-board's game by the new one and clears the error. With an undecided new game the sub-board's result is undecided again. |
| Ultimate.RetryNeedsErrorView | frontend/src/components/TicTacToe.tsx:134-143 | Without the error view (no message, or an empty one) there is no Retry button: the game stays as it is. |
| Ultimate.PlayKeepsErrorsUndecided | frontend/src/components/TicTacToe.tsx:114-115 | After any click only undecided sub-boards show an error, because a refused move keeps the undecided game it was sent from. |
| Ultimate.RetryKeepsDecided | frontend/src/components/TicTacToe.tsx:121-132 | A retry keeps errors on undecided sub-boards only and leaves every decided result as it was. |
| Ultimate.ResultsAreFinal | frontend/src/components/TicTacToe.tsx:98-100 | A sub-board result, once decided, stays the same through every click. |
| Ultimate.FinishedGameIsFrozen | frontend/src/App.tsx:123 | Once the meta-board has a result, every click is ignored. |
| Ultimate.Apply | frontend/src/App.tsx:113-125 | One click or retry leaves a synced game with the same key. |
| Ultimate.ApplyKeepsDecided | frontend/src/App.tsx:24-30 | From a synced game with errors only on undecided sub-boards, an action keeps that property and leaves every decided result as it was. |
| Ultimate.Run | frontend/src/App.tsx:113-125 | A run that takes a step, or starts synced, ends synced. It keeps the game key and counts at most one accepted move per action. |
| Ultimate.RunKeepsDecided | frontend/src/App.tsx:24-30 | Over any run of clicks and retries from such a game, a decided sub-board result never changes. |
| Ultimate.PlayTurn | frontend/src/App.tsx:116-122 | The turn flips and the last cell is recorded iff the move is accepted. |
| Ultimate.ApplyTurn | frontend/src/App.tsx:116-122 | Only an accepted move flips the turn and records its cell; ignored or refused clicks and retries keep both. |
| Ultimate.RunAlternates | frontend/src/App.tsx:116-122 | After a run, the player is the one flipped once per accepted move. |
| Ultimate.TurnParity | frontend/src/App.tsx:14-20 | From a state with X to move, X is to move iff an even number of moves have been accepted. |
| Backed.AsReply | frontend/src/components/TicTacToe.tsx:85-94 | The component receives the store's state on success and the error's detail on failure. |
| Backed.Click | frontend/src/components/TicTacToe.tsx:97-119 | A click on a shown board that fails the component's filter sends nothing and changes neither component nor store. One that passes applies the move to the component's game in the store and hands the answer back. |
| Backed.ClickKeepsCoherent | frontend/src/components/TicTacToe.tsx:97-113 | With a cache equal to the store's current state, a click keeps cache and store equal. A move that passes the filter is never refused and is reported upward. |
| Backed.ClickLeavesOtherGames | backend/app/tictactoe/router.py:60 | A sub-board's click leaves every other game in the store unchanged. |

## Left out

- HTTP, JSON and the request schemas are left out. A payload the schema rejects (a non-integer index, an unknown mark) gets a validation error before the store is reached; the model types those fields.
- `uuid4` is left out: the new game's id is a parameter of `Router.CreateGame`.
- React rendering, styling and the status and progress texts are left out.
- Render scheduling is not modelled. The `onWin` prop is a new function on every render of the parent, and `handleWin` always stores a new array. So the sub-boards' report effects run again after every parent render, which renders the parent again, without end. The state values stop changing after the first round; `Ultimate.Sync` computes that state.
- The asynchronous interleaving of `fetch` and state updates is left out. In particular, the loading flag is never seen set between steps, and the mount effect's `canceled` flag is not modelled. Every transition is one synchronous step, and the effects run at its end.
- The component's fallback messages ("Create failed: …", "Move failed: …") are left out; the oracle's error string stands for whatever message arrives.
- `handleCellClick` in `App.tsx` is never wired to a component and is not modelled. The live turn flip is the `onCellClick` lambda.
- The component's `playMove` check for a missing game is not modelled: `handleClick` has already excluded that case.
- The engine does not check whose turn it is, and neither does the model. The component sends the parent's current player.
- The frontend tests and the mock server target an older component interface, so no property is taken from them.
- Parts of the backend tests target an older engine and API, so the model does not follow them there:
  - `test_tictactoe_engine.py:7,10,14` expect a `current_player` field, an "X's turn" status and `move` without a player argument. The engine has none of these.
  - The available-moves test at `test_tictactoe_engine.py:66-71` also calls `move` without a player. `Engine.FreshGameOffersAll` and `Engine.AvailableAfterFirstMove` take from it only what it checks of `available_moves`, with the player passed explicitly.
  - `test_tictactoe_api.py:14,27` expect `current_player` in the reply and moves posted without a player. The reply has no such field, and the request schema requires the player.
- Tooling and configuration files (database migrations, task runner, bundler, browser tests, application entry point) are outside the game logic.
- Engine.Move: the model treats states as values and makes no claim that the input state survives a move. In the source, `copy` shares the board, so the input's board is written too. See Findings.
- Ultimate.Start: only the parent's initial fields and each sub-board's reply are stated. Results depend on the arbitrary replies, so they are not all null unless the replies are fresh games.
- Ultimate.NewGame: same as `Ultimate.Start`, for the results after the remount.

## Findings

| source | as written | input that shows it | evidently intended | confidence | as-written member | corrected member |
|---|---|---|---|---|---|---|
| backend/app/tictactoe/engine.py:28-29 | `GameState.copy` hands the same board list to the new state, and `move` then writes the mark into it. Every state in a game's history therefore shares one board, and the history endpoint shows the current board in every entry. | Create a game, play X on cell 0, read the history: entry 0 (the fresh game) shows X in cell 0. | Each stored state keeps its own board, so the history shows the game move by move. | high; not executed | Router.GetHistoryAsWritten, Router.HistoryAliasingExample | Router.GetHistory, Router.HistoryShowsEachMove |
