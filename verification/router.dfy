/** The backend's in-memory game store: a map from game id to the game's
    history, a non-empty list of states whose last element is the current
    state. HTTP is abstracted to result values: a 404 is `NotFound`, a 400
    is `BadRequest` carrying the engine's message. */
module Router {
  import opened Common
  import Engine

  type GameId = string

  /** A game's states in the order they were stored. */
  type History = h: seq<Engine.GameState> | |h| > 0 witness [Engine.NewGame()]

  type Store = map<GameId, History>

  /** What the store's endpoints answer with for one state. */
  datatype StateDto = StateDto(id: GameId, board: seq<Option<Player>>, winner: Option<Player>, isDraw: bool, status: string)

  datatype ApiError = NotFound | BadRequest(detail: string)

  /** The `detail` text of the error reply: the fixed not-found message, or
      the engine's message passed through unchanged. */
  function ErrorDetail(e: ApiError): (s: string)
    ensures e.NotFound? ==> s == "Game not found."
    ensures e.BadRequest? ==> s == e.detail
    ensures forall m :: e == BadRequest(Engine.Detail(m)) ==> s != []
  {
    match e
    case NotFound => "Game not found."
    case BadRequest(d) => d
  }

  /** The current state of a game. */
  function Last(h: History): Engine.GameState {
    h[|h| - 1]
  }

  /** The reply body for state `g` of game `id`. */
  function ToDto(id: GameId, g: Engine.GameState): (d: StateDto)
    ensures d.id == id && d.board == g.board && d.winner == g.winner && d.isDraw == g.isDraw
    ensures d.status == "in progress" <==> !Engine.Over(g)
    ensures d.status == Engine.Status(g)
    ensures g.winner.Some? ==> d.status == Name(g.winner.value) + " wins"
    ensures d.status == "draw" <==> g.winner.None? && g.isDraw
  {
    StateDto(id, g.board, g.winner, g.isDraw, Engine.Status(g))
  }

  /** Stores a one-state history holding a fresh game under `id`, the id the
      source draws from `uuid4`. The requested starting player is ignored. */
  function CreateGame(store: Store, id: GameId, startingPlayer: Option<Player>): (r: (Store, StateDto))
    ensures r.0.Keys == store.Keys + {id}
    ensures r.0[id] == [Engine.NewGame()]
    ensures forall other | other in store && other != id :: r.0[other] == store[other]
    ensures r.1 == ToDto(id, Engine.NewGame())
  {
    (store[id := [Engine.NewGame()]], ToDto(id, Engine.NewGame()))
  }

  /** The last stored state of `id`. */
  function GetState(store: Store, id: GameId): (r: Result<StateDto, ApiError>)
    ensures id !in store <==> r == Err(NotFound)
    ensures id in store ==> r == Ok(ToDto(id, store[id][|store[id]| - 1]))
  {
    if id !in store then Err(NotFound)
    else Ok(ToDto(id, Last(store[id])))
  }

  /** Every stored state of `id`, oldest first. */
  function GetHistory(store: Store, id: GameId): (r: Result<seq<StateDto>, ApiError>)
    ensures id !in store <==> r == Err(NotFound)
    ensures id in store ==> r.Ok? && |r.value| == |store[id]|
    ensures id in store ==> forall k | 0 <= k < |store[id]| :: r.value[k] == ToDto(id, store[id][k])
  {
    if id !in store then Err(NotFound)
    else Ok(seq(|store[id]|, k requires 0 <= k < |store[id]| => ToDto(id, store[id][k])))
  }

  /** Applies the engine's move to the last state of `id`. An unknown id or a
      move the engine refuses leaves the store as it was; an accepted move
      appends exactly one state, the engine's result, to that game only. */
  function MakeMove(store: Store, id: GameId, index: int, player: Player): (r: (Store, Result<StateDto, ApiError>))
    ensures id !in store ==> r == (store, Err(NotFound))
    ensures id in store && Engine.Move(Last(store[id]), index, player).Err? ==>
      r == (store, Err(BadRequest(Engine.Detail(Engine.Move(Last(store[id]), index, player).error))))
    ensures r.1.Ok? <==> id in store && Engine.Move(Last(store[id]), index, player).Ok?
    ensures r.1.Ok? ==>
      var next := Engine.Move(Last(store[id]), index, player).value;
      && r.0.Keys == store.Keys
      && |r.0[id]| == |store[id]| + 1
      && r.0[id][..|store[id]|] == store[id]
      && Last(r.0[id]) == next
      && r.1.value == ToDto(id, next)
    ensures forall other | other in store && other != id :: other in r.0 && r.0[other] == store[other]
  {
    if id !in store then (store, Err(NotFound))
    else
      match Engine.Move(Last(store[id]), index, player)
      case Err(e) => (store, Err(BadRequest(Engine.Detail(e))))
      case Ok(next) => (store[id := store[id] + [next]], Ok(ToDto(id, next)))
  }

  /** Removes `id`, answering whether it was there; nothing else changes. */
  function DeleteGame(store: Store, id: GameId): (r: (Store, bool))
    ensures r.1 <==> id in store
    ensures r.0.Keys == store.Keys - {id}
    ensures forall other | other in r.0 :: r.0[other] == store[other]
  {
    if id in store then (store - {id}, true)
    else (store, false)
  }

  /** One accepted engine step leads from `a` to `b`. */
  ghost predicate Step(a: Engine.GameState, b: Engine.GameState) {
    exists index: int, player: Player :: Engine.Move(a, index, player) == Ok(b)
  }

  /** A history the store can hold: it opens with a fresh game and each state
      is an accepted move on the one before. */
  ghost predicate IsPlay(h: History) {
    && h[0] == Engine.NewGame()
    && forall k | 0 < k < |h| :: Step(h[k - 1], h[k])
  }

  /** Every history in the store is a play. */
  ghost predicate Good(store: Store) {
    forall id | id in store :: IsPlay(store[id])
  }

  /** Each endpoint keeps every history a play. */
  lemma CreateKeepsGood(store: Store, id: GameId, startingPlayer: Option<Player>)
    requires Good(store)
    ensures Good(CreateGame(store, id, startingPlayer).0)
  {
  }

  lemma {:induction false} MakeMoveKeepsGood(store: Store, id: GameId, index: int, player: Player)
    requires Good(store)
    ensures Good(MakeMove(store, id, index, player).0)
  {
    var r := MakeMove(store, id, index, player);
    if r.1.Ok? {
      var h := store[id];
      var next := Engine.Move(Last(h), index, player).value;
      var h' := r.0[id];
      assert IsPlay(h) by { assert id in store; }
      assert h' == h + [next];
      assert Step(h'[|h'| - 2], h'[|h'| - 1]) by {
        assert Engine.Move(h'[|h'| - 2], index, player) == Ok(h'[|h'| - 1]);
      }
      assert IsPlay(h') by {
        forall k | 0 < k < |h'|
          ensures Step(h'[k - 1], h'[k])
        {
          if k < |h| {
            assert h'[k - 1] == h[k - 1] && h'[k] == h[k];
          }
        }
      }
    }
  }

  lemma DeleteKeepsGood(store: Store, id: GameId)
    requires Good(store)
    ensures Good(DeleteGame(store, id).0)
  {
  }

  /** Every state of a play is consistent: its winner and draw flag are
      those its board determines. */
  lemma {:induction false} PlayIsConsistent(h: History, k: int)
    requires IsPlay(h)
    requires 0 <= k < |h|
    ensures Engine.Consistent(h[k])
  {
    if k > 0 {
      var index: int, player: Player :| Engine.Move(h[k - 1], index, player) == Ok(h[k]);
    }
  }

  /** Reading back after an accepted move gives the move's reply, and the
      history gains exactly that state at its end. */
  lemma GetAfterMove(store: Store, id: GameId, index: int, player: Player)
    requires MakeMove(store, id, index, player).1.Ok?
    ensures GetState(MakeMove(store, id, index, player).0, id) == MakeMove(store, id, index, player).1
    ensures GetHistory(MakeMove(store, id, index, player).0, id).value
         == GetHistory(store, id).value + [MakeMove(store, id, index, player).1.value]
  {
    var r := MakeMove(store, id, index, player);
    var before := GetHistory(store, id).value;
    var after := GetHistory(r.0, id).value;
    assert |after| == |before| + 1;
    forall k | 0 <= k < |before|
      ensures after[k] == before[k]
    {
      assert r.0[id][k] == store[id][k];
    }
  }

  /** Right after creation the history is the single fresh state; after
      deletion the game is gone. */
  lemma CreateThenRead(store: Store, id: GameId, startingPlayer: Option<Player>)
    ensures GetHistory(CreateGame(store, id, startingPlayer).0, id) == Ok([ToDto(id, Engine.NewGame())])
    ensures GetState(CreateGame(store, id, startingPlayer).0, id) == Ok(ToDto(id, Engine.NewGame()))
  {
    var h := GetHistory(CreateGame(store, id, startingPlayer).0, id).value;
    assert |h| == 1 && h[0] == ToDto(id, Engine.NewGame());
    assert h == [ToDto(id, Engine.NewGame())];
  }

  lemma DeleteThenRead(store: Store, id: GameId, index: int, player: Player)
    ensures GetState(DeleteGame(store, id).0, id) == Err(NotFound)
    ensures MakeMove(DeleteGame(store, id).0, id, index, player).1 == Err(NotFound)
    ensures !DeleteGame(DeleteGame(store, id).0, id).1
  {
  }

  /** The history endpoint as the source behaves: the engine's state copy
      keeps the same board list, so every state of one game shares a single
      board, and every entry of the history shows the current board next to
      its own winner, draw flag and status. */
  function GetHistoryAsWritten(store: Store, id: GameId): (r: Result<seq<StateDto>, ApiError>)
    ensures id !in store <==> r == Err(NotFound)
    ensures id in store ==> r.Ok? && |r.value| == |store[id]|
    ensures id in store ==> forall k | 0 <= k < |store[id]| :: r.value[k].board == Last(store[id]).board
  {
    if id !in store then Err(NotFound)
    else
      var h := store[id];
      Ok(seq(|h|, k requires 0 <= k < |h| =>
        ToDto(id, Engine.GameState(Last(h).board, h[k].winner, h[k].isDraw))))
  }

  /** Create a game, let X take cell 0, and read the history: the entry for
      the fresh game shows X in cell 0 when the board is shared, and an empty
      cell 0 when states are kept by value. */
  lemma HistoryAliasingExample()
    ensures
      var s := MakeMove(CreateGame(map[], "g", None).0, "g", 0, X).0;
      && GetHistoryAsWritten(s, "g").value[0].board[0] == Some(X)
      && GetHistory(s, "g").value[0].board[0] == None
  {
    var s0 := CreateGame(map[], "g", None).0;
    assert Engine.Move(Last(s0["g"]), 0, X).Ok?;
    var s := MakeMove(s0, "g", 0, X).0;
    assert |s["g"]| == 2;
  }

  /** By value, the history shows the game move by move: the first entry is
      the empty board, and each later entry adds one mark in a cell that was
      empty in the entry before it and changes nothing else. */
  lemma HistoryShowsEachMove(store: Store, id: GameId, k: int)
    requires Good(store) && id in store
    requires 0 < k < |store[id]|
    ensures forall i | 0 <= i < 9 :: GetHistory(store, id).value[0].board[i] == None
    ensures
      var h := GetHistory(store, id).value;
      exists i | 0 <= i < 9 ::
        && h[k - 1].board[i] == None && h[k].board[i].Some?
        && forall j | 0 <= j < 9 && j != i :: h[k].board[j] == h[k - 1].board[j]
  {
    var hs := store[id];
    assert IsPlay(hs);
    assert Step(hs[k - 1], hs[k]);
    var index: int, player: Player :| Engine.Move(hs[k - 1], index, player) == Ok(hs[k]);
    var h := GetHistory(store, id).value;
    assert h[k - 1].board[index] == None && h[k].board[index].Some?;
  }
}
