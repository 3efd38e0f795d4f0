/** The meta-board and its nine sub-board components taken together: a click
    on a cell of one sub-board, the parent's reaction to an accepted move,
    the results each sub-board reports back, and the new game. After every
    step the reports of all nine sub-boards are folded into the results (the
    source calls `handleWin` from each sub-board after every render) and the
    derived fields are recomputed. */
module Ultimate {
  import opened Common
  import Meta
  import SubBoard

  /** The nine sub-board components, in board order. */
  type Boards = s: seq<SubBoard.Client> | |s| == 9
    witness [SubBoard.Mounting, SubBoard.Mounting, SubBoard.Mounting,
             SubBoard.Mounting, SubBoard.Mounting, SubBoard.Mounting,
             SubBoard.Mounting, SubBoard.Mounting, SubBoard.Mounting]

  datatype Game = Game(app: Meta.App, boards: Boards)

  /** The effect of one click: the new game and the move request sent, if any. */
  datatype PlayResult = PlayResult(game: Game, sent: Option<SubBoard.Request>)

  /** One player action: a click on `cell` of sub-board `board`, answered by
      `server` if a request is sent, or a press of the Retry button that
      sub-board `board` shows in its error view, answered by `reply`. */
  datatype Action =
    | ClickCell(board: int, cell: int, server: SubBoard.Request -> SubBoard.Reply)
    | RetryBoard(board: int, reply: SubBoard.Reply)

  /** The parent's results mirror what each sub-board reports, and the
      derived fields are up to date. */
  predicate Synced(g: Game) {
    && (forall b | 0 <= b < 9 :: g.app.results[b] == SubBoard.Reported(g.boards[b]))
    && Meta.Settled(g.app)
  }

  /** Only undecided sub-boards show the error view: a failed creation leaves
      no game, and a refused move leaves the undecided game it was sent from. */
  predicate ErrorsUndecided(g: Game) {
    forall b | 0 <= b < 9 :: SubBoard.ErrorView(g.boards[b]) ==> SubBoard.Reported(g.boards[b]).None?
  }

  /** `handleWin(b, report of b)` for every sub-board `b` from `k` on. */
  function SyncFrom(a: Meta.App, boards: Boards, k: int): (r: Meta.App)
    requires 0 <= k <= 9
    ensures forall b | k <= b < 9 :: r.results[b] == SubBoard.Reported(boards[b])
    ensures forall b | 0 <= b < k :: r.results[b] == a.results[b]
    ensures r.currentPlayer == a.currentPlayer && r.lastCell == a.lastCell && r.gameKey == a.gameKey
    ensures k < 9 ==> Meta.Settled(r)
    decreases 9 - k
  {
    if k == 9 then a
    else SyncFrom(Meta.HandleWin(a, k, SubBoard.Reported(boards[k])), boards, k + 1)
  }

  /** Every sub-board reports its outcome to the parent. */
  function Sync(a: Meta.App, boards: Boards): (r: Meta.App)
    ensures Synced(Game(r, boards))
    ensures r.currentPlayer == a.currentPlayer && r.lastCell == a.lastCell && r.gameKey == a.gameKey
  {
    SyncFrom(a, boards, 0)
  }

  /** Reporting again what the parent already holds changes nothing. */
  lemma SyncIdle(g: Game)
    requires Synced(g)
    ensures Sync(g.app, g.boards) == g.app
  {
    var r := Sync(g.app, g.boards);
    assert r.results == g.app.results;
  }

  /** The game as first rendered: the parent's initial state and nine
      sub-boards, each holding what its game-creation request answered. */
  function Start(replies: seq<SubBoard.Reply>): (g: Game)
    requires |replies| == 9
    ensures Synced(g) && ErrorsUndecided(g)
    ensures g.app.currentPlayer == X && g.app.lastCell.None? && g.app.activeBoard.None? && g.app.gameKey == 0
    ensures forall b | 0 <= b < 9 :: g.boards[b] == SubBoard.Started(SubBoard.Mounting, replies[b])
  {
    var boards := seq(9, b requires 0 <= b < 9 => SubBoard.Started(SubBoard.Mounting, replies[b]));
    Game(Sync(Meta.Initial(), boards), boards)
  }

  /** "New Game": the parent resets and, its key having changed, all nine
      sub-boards are mounted anew and create fresh games. */
  function NewGame(g: Game, replies: seq<SubBoard.Reply>): (r: Game)
    requires |replies| == 9
    ensures Synced(r) && ErrorsUndecided(r)
    ensures r.app.currentPlayer == X && r.app.lastCell.None? && r.app.activeBoard.None?
    ensures r.app.gameKey == g.app.gameKey + 1
    ensures forall b | 0 <= b < 9 :: r.boards[b] == SubBoard.Started(SubBoard.Mounting, replies[b])
  {
    var boards := seq(9, b requires 0 <= b < 9 => SubBoard.Started(SubBoard.Mounting, replies[b]));
    Game(Sync(Meta.Reset(g.app), boards), boards)
  }

  /** A click on cell `i` of sub-board `b`. Cell buttons exist only while the
      sub-board shows its board; in the loading and error views there is
      nothing to click. The sub-board is disabled or not as the parent says;
      if the sub-board reports the move accepted, the parent records the cell
      and flips the turn; then every sub-board's outcome is reported. */
  function Play(g: Game, b: int, i: int, server: SubBoard.Request -> SubBoard.Reply): (r: PlayResult)
    requires 0 <= b < 9
    ensures Synced(r.game)
    ensures forall c | 0 <= c < 9 && c != b :: r.game.boards[c] == g.boards[c]
    ensures r.sent.Some? ==> SubBoard.Shown(g.boards[b])
    ensures r.game.app.gameKey == g.app.gameKey
  {
    var click := SubBoard.CellClick(g.boards[b], Meta.Disabled(g.app, b) || !SubBoard.Shown(g.boards[b]), i, g.app.currentPlayer, server);
    var app := if click.clicked.Some? then Meta.OnCellClick(g.app, click.clicked.value) else g.app;
    var boards := g.boards[b := click.client];
    PlayResult(Game(Sync(app, boards), boards), click.sent)
  }

  /** The move was sent and the backend accepted it. */
  predicate Accepted(r: PlayResult, server: SubBoard.Request -> SubBoard.Reply) {
    r.sent.Some? && server(r.sent.value).Ok?
  }

  /** A click that sends nothing leaves the whole game as it was. */
  lemma IgnoredClickChangesNothing(g: Game, b: int, i: int, server: SubBoard.Request -> SubBoard.Reply)
    requires Synced(g) && 0 <= b < 9
    ensures Play(g, b, i, server).sent.None? ==> Play(g, b, i, server).game == g
  {
    var click := SubBoard.CellClick(g.boards[b], Meta.Disabled(g.app, b) || !SubBoard.Shown(g.boards[b]), i, g.app.currentPlayer, server);
    if click.sent.None? {
      assert g.boards[b := click.client] == g.boards;
      SyncIdle(g);
    }
  }

  /** A move is only sent from a sub-board the constraint allows, that is
      undecided, while the game has no overall result, and it carries the
      current player and the clicked cell. */
  lemma SentOnlyWhereAllowed(g: Game, b: int, i: int, server: SubBoard.Request -> SubBoard.Reply)
    requires Synced(g) && 0 <= b < 9
    ensures Play(g, b, i, server).sent.Some? ==>
      && g.app.bigWinner.None?
      && (g.app.activeBoard.None? || g.app.activeBoard == Some(b))
      && g.app.results[b].None?
      && Play(g, b, i, server).sent == Some(SubBoard.MoveRequest(i, g.app.currentPlayer))
  {
  }

  /** An accepted move flips the turn, records the cell, takes the backend's
      state into sub-board `b`, and confines the next move to sub-board `i`
      exactly when that sub-board is still undecided. */
  lemma AcceptedMove(g: Game, b: int, i: int, server: SubBoard.Request -> SubBoard.Reply)
    requires Synced(g) && 0 <= b < 9 && 0 <= i < 9
    ensures Accepted(Play(g, b, i, server), server) ==>
      var g' := Play(g, b, i, server).game;
      && g'.app.currentPlayer == Opponent(g.app.currentPlayer)
      && g'.app.lastCell == Some(i)
      && g'.boards[b].state == Some(server(SubBoard.MoveRequest(i, g.app.currentPlayer)).value)
      && (g'.app.results[i].None? ==> g'.app.activeBoard == Some(i))
      && (g'.app.results[i].Some? ==> g'.app.activeBoard.None?)
  {
  }

  /** A move the backend refuses leaves the turn, the last cell and every
      result as they were; the sub-board shows the message instead. */
  lemma RefusedMove(g: Game, b: int, i: int, server: SubBoard.Request -> SubBoard.Reply)
    requires Synced(g) && 0 <= b < 9
    ensures Play(g, b, i, server).sent.Some? && !Accepted(Play(g, b, i, server), server) ==>
      var g' := Play(g, b, i, server).game;
      && g'.app.currentPlayer == g.app.currentPlayer
      && g'.app.lastCell == g.app.lastCell
      && g'.app.results == g.app.results
      && g'.boards[b].state == g.boards[b].state
      && g'.boards[b].error.Some?
  {
    var r := Play(g, b, i, server);
    var click := SubBoard.CellClick(g.boards[b], Meta.Disabled(g.app, b) || !SubBoard.Shown(g.boards[b]), i, g.app.currentPlayer, server);
    if click.sent.Some? && server(click.sent.value).Err? {
      assert r.game.boards == g.boards[b := click.client];
      assert click.client.state == g.boards[b].state;
      forall c | 0 <= c < 9
        ensures r.game.app.results[c] == g.app.results[c]
      {
        if c == b {
          assert r.game.boards[b].state == g.boards[b].state;
        }
      }
    }
  }

  /** Once the meta-board has a result, every click is ignored. */
  lemma FinishedGameIsFrozen(g: Game, b: int, i: int, server: SubBoard.Request -> SubBoard.Reply)
    requires Synced(g) && 0 <= b < 9
    requires g.app.bigWinner.Some?
    ensures Play(g, b, i, server) == PlayResult(g, None)
  {
    IgnoredClickChangesNothing(g, b, i, server);
  }

  /** A sub-board showing its error view takes no move: only Retry leads on. */
  lemma ErrorViewIgnoresClicks(g: Game, b: int, i: int, server: SubBoard.Request -> SubBoard.Reply)
    requires Synced(g) && 0 <= b < 9
    requires SubBoard.ErrorView(g.boards[b])
    ensures Play(g, b, i, server) == PlayResult(g, None)
  {
    IgnoredClickChangesNothing(g, b, i, server);
  }

  /** The Retry button of sub-board `b`, present only in its error view: the
      sub-board creates a new backend game and, when that succeeds, shows it
      in place of the board it had, whatever marks that board held. Then
      every sub-board's outcome is reported. */
  function Retry(g: Game, b: int, reply: SubBoard.Reply): (r: Game)
    requires 0 <= b < 9
    ensures Synced(r)
    ensures forall c | 0 <= c < 9 && c != b :: r.boards[c] == g.boards[c]
    ensures SubBoard.ErrorView(g.boards[b]) ==> r.boards[b] == SubBoard.Started(g.boards[b], reply)
    ensures !SubBoard.ErrorView(g.boards[b]) ==> r.boards == g.boards
    ensures r.app.currentPlayer == g.app.currentPlayer && r.app.lastCell == g.app.lastCell
    ensures r.app.gameKey == g.app.gameKey
  {
    var boards := if SubBoard.ErrorView(g.boards[b]) then g.boards[b := SubBoard.Started(g.boards[b], reply)] else g.boards;
    Game(Sync(g.app, boards), boards)
  }

  /** A successful retry replaces the sub-board's game by the reply: with a
      fresh game every cell of that sub-board is empty again and its result
      goes back to undecided, in the middle of the meta-game. The turn and the
      last cell stay. */
  lemma RetryRestartsBoard(g: Game, b: int, reply: SubBoard.Reply)
    requires 0 <= b < 9
    requires SubBoard.ErrorView(g.boards[b]) && reply.Ok?
    ensures Retry(g, b, reply).boards[b].state == Some(reply.value)
    ensures Retry(g, b, reply).boards[b].error.None?
    ensures reply.value.winner.None? && !reply.value.isDraw ==> Retry(g, b, reply).app.results[b].None?
  {
  }

  /** Without an error view there is no Retry button: nothing changes. */
  lemma RetryNeedsErrorView(g: Game, b: int, reply: SubBoard.Reply)
    requires Synced(g) && 0 <= b < 9
    requires !SubBoard.ErrorView(g.boards[b])
    ensures Retry(g, b, reply) == g
  {
    SyncIdle(g);
  }

  /** A sub-board's result, once decided, survives every click: the clicked
      sub-board ignores the click when it is decided, and the others are not
      touched. */
  lemma ResultsAreFinal(g: Game, b: int, i: int, server: SubBoard.Request -> SubBoard.Reply, c: int)
    requires Synced(g) && 0 <= b < 9 && 0 <= c < 9
    requires g.app.results[c].Some?
    ensures Play(g, b, i, server).game.app.results[c] == g.app.results[c]
  {
    if c == b {
      SubBoard.DecidedBoardIsFrozen(g.boards[b], Meta.Disabled(g.app, b), i, g.app.currentPlayer, server);
    }
  }

  /** One action, with whether it was a move the backend accepted. */
  function Apply(g: Game, a: Action): (r: (Game, bool))
    requires 0 <= a.board < 9
    ensures Synced(r.0)
    ensures r.0.app.gameKey == g.app.gameKey
  {
    match a
    case ClickCell(b, i, server) =>
      var step := Play(g, b, i, server);
      (step.game, Accepted(step, server))
    case RetryBoard(b, reply) => (Retry(g, b, reply), false)
  }

  /** The parent flips the turn and records the cell exactly when the move is
      accepted; a click that is ignored or refused keeps both. */
  lemma PlayTurn(g: Game, b: int, i: int, server: SubBoard.Request -> SubBoard.Reply)
    requires 0 <= b < 9
    ensures Accepted(Play(g, b, i, server), server) ==>
      Play(g, b, i, server).game.app.currentPlayer == Opponent(g.app.currentPlayer)
      && Play(g, b, i, server).game.app.lastCell == Some(i)
    ensures !Accepted(Play(g, b, i, server), server) ==>
      Play(g, b, i, server).game.app.currentPlayer == g.app.currentPlayer
      && Play(g, b, i, server).game.app.lastCell == g.app.lastCell
  {
  }

  /** The parent flips the turn and records the cell exactly when the action
      is an accepted move; an ignored or refused click and a retry keep both. */
  lemma ApplyTurn(g: Game, a: Action)
    requires 0 <= a.board < 9
    ensures Apply(g, a).1 ==>
      Apply(g, a).0.app.currentPlayer == Opponent(g.app.currentPlayer) && Apply(g, a).0.app.lastCell == Some(a.cell)
    ensures !Apply(g, a).1 ==>
      Apply(g, a).0.app.currentPlayer == g.app.currentPlayer && Apply(g, a).0.app.lastCell == g.app.lastCell
  {
    if a.ClickCell? {
      PlayTurn(g, a.board, a.cell, a.server);
    }
  }

  /** A click leaves the error view only on undecided sub-boards: a refused
      move keeps the undecided game it was sent from. */
  lemma PlayKeepsErrorsUndecided(g: Game, b: int, i: int, server: SubBoard.Request -> SubBoard.Reply)
    requires ErrorsUndecided(g) && 0 <= b < 9
    ensures ErrorsUndecided(Play(g, b, i, server).game)
  {
    var g' := Play(g, b, i, server).game;
    var click := SubBoard.CellClick(g.boards[b], Meta.Disabled(g.app, b) || !SubBoard.Shown(g.boards[b]), i, g.app.currentPlayer, server);
    assert g'.boards[b] == click.client;
    forall c | 0 <= c < 9 && SubBoard.ErrorView(g'.boards[c])
      ensures SubBoard.Reported(g'.boards[c]).None?
    {
      if c != b {
        assert g'.boards[c] == g.boards[c];
      } else if click.sent.Some? {
        assert click.client.state == g.boards[b].state;
      }
    }
  }

  /** A retry keeps errors on undecided sub-boards only and leaves every
      decided result as it was: only a sub-board in its error view, which is
      undecided, is restarted. */
  lemma RetryKeepsDecided(g: Game, b: int, reply: SubBoard.Reply)
    requires Synced(g) && ErrorsUndecided(g) && 0 <= b < 9
    ensures ErrorsUndecided(Retry(g, b, reply))
    ensures forall c | 0 <= c < 9 && g.app.results[c].Some? :: Retry(g, b, reply).app.results[c] == g.app.results[c]
  {
    var g' := Retry(g, b, reply);
    forall c | 0 <= c < 9 && g.app.results[c].Some?
      ensures g'.app.results[c] == g.app.results[c]
    {
      assert g'.boards[c] == g.boards[c];
    }
  }

  /** Every action keeps errors on undecided sub-boards only, and leaves every
      decided result as it was. */
  lemma ApplyKeepsDecided(g: Game, a: Action)
    requires Synced(g) && ErrorsUndecided(g) && 0 <= a.board < 9
    ensures ErrorsUndecided(Apply(g, a).0)
    ensures forall c | 0 <= c < 9 && g.app.results[c].Some? :: Apply(g, a).0.app.results[c] == g.app.results[c]
  {
    match a
    case ClickCell(b, i, server) =>
      PlayKeepsErrorsUndecided(g, b, i, server);
      forall c | 0 <= c < 9 && g.app.results[c].Some?
        ensures Apply(g, a).0.app.results[c] == g.app.results[c]
      {
        ResultsAreFinal(g, b, i, server, c);
      }
    case RetryBoard(b, reply) =>
      RetryKeepsDecided(g, b, reply);
  }

  /** The game after each action in turn, with the number of accepted moves.
      Every run that takes a step ends in a synced game, and the game key
      (the mount generation of the sub-boards) is never changed by play. */
  function Run(g: Game, actions: seq<Action>): (r: (Game, nat))
    requires forall k | 0 <= k < |actions| :: 0 <= actions[k].board < 9
    ensures r.1 <= |actions|
    ensures Synced(g) || actions != [] ==> Synced(r.0)
    ensures r.0.app.gameKey == g.app.gameKey
    decreases |actions|
  {
    if actions == [] then (g, 0)
    else
      var step := Apply(g, actions[0]);
      var rest := Run(step.0, actions[1..]);
      (rest.0, rest.1 + if step.1 then 1 else 0)
  }

  /** Over any run from a reachable game, a sub-board result once decided
      never changes and errors stay on undecided sub-boards. */
  lemma {:induction false} RunKeepsDecided(g: Game, actions: seq<Action>, c: int)
    requires forall k | 0 <= k < |actions| :: 0 <= actions[k].board < 9
    requires Synced(g) && ErrorsUndecided(g)
    requires 0 <= c < 9 && g.app.results[c].Some?
    ensures ErrorsUndecided(Run(g, actions).0)
    ensures Run(g, actions).0.app.results[c] == g.app.results[c]
    decreases |actions|
  {
    if actions != [] {
      var step := Apply(g, actions[0]);
      ApplyKeepsDecided(g, actions[0]);
      RunKeepsDecided(step.0, actions[1..], c);
    }
  }

  /** The turn flips exactly on accepted moves: after a run, the player is the
      one before when an even number of moves were accepted, else the other. */
  lemma {:induction false} RunAlternates(g: Game, actions: seq<Action>)
    requires forall k | 0 <= k < |actions| :: 0 <= actions[k].board < 9
    ensures Run(g, actions).0.app.currentPlayer == Flipped(g.app.currentPlayer, Run(g, actions).1)
    decreases |actions|
  {
    if actions != [] {
      var step := Apply(g, actions[0]);
      ApplyTurn(g, actions[0]);
      RunAlternates(step.0, actions[1..]);
      var n := Run(step.0, actions[1..]).1;
      var p := g.app.currentPlayer;
      if step.1 {
        assert step.0.app.currentPlayer == Opponent(p);
        FlipAfterOpponent(p, n);
      } else {
        assert step.0.app.currentPlayer == p;
      }
    }
  }

  /** From a state where X is to move (every new game is one), X moves next
      exactly when an even number of moves have been accepted since. */
  lemma TurnParity(g: Game, actions: seq<Action>)
    requires forall k | 0 <= k < |actions| :: 0 <= actions[k].board < 9
    requires g.app.currentPlayer == X
    ensures Run(g, actions).0.app.currentPlayer == X <==> Run(g, actions).1 % 2 == 0
  {
    RunAlternates(g, actions);
  }
}
