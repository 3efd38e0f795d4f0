/** The frontend component that shows one sub-board. It caches the state the
    backend last returned for its game, filters clicks before sending a move,
    replaces its cache wholesale with the backend's reply, reports the
    sub-board's outcome upward and decides which cells are clickable. The
    backend is an oracle: a function from the request to either a state or an
    error message. Each transition is one synchronous step. */
module SubBoard {
  import opened Common
  import Router

  /** The component's state: the cached game (absent until creation
      answers), whether a request is in flight, and the last error. */
  datatype Client = Client(state: Option<Router.StateDto>, loading: bool, error: Option<string>)

  /** The body of a move request. */
  datatype Request = MoveRequest(index: int, player: Player)

  /** What the backend answers: a state, or the message of a failure. */
  type Reply = Result<Router.StateDto, string>

  /** The effect of one click: the new component state, the request sent if
      any, and the cell reported upward through `onCellClick` if any. */
  datatype ClickResult = ClickResult(client: Client, sent: Option<Request>, clicked: Option<int>)

  /** The component right after mounting, waiting for its game. */
  const Mounting: Client := Client(None, true, None)

  /** The cached game is decided. */
  predicate Decided(st: Router.StateDto) {
    st.winner.Some? || st.isDraw
  }

  /** Cell `i` of the cached board is a cell and is empty (an index past the
      board reads as `undefined`, which the source treats as filled). */
  predicate EmptyAt(st: Router.StateDto, i: int) {
    0 <= i < |st.board| && st.board[i].None?
  }

  /** The component after a game-creation request answers, on mounting or
      from the retry button shown after an error: the game on success, the
      message on failure. */
  function Started(c: Client, reply: Reply): (r: Client)
    ensures !r.loading
    ensures reply.Ok? ==> r.state == Some(reply.value) && r.error.None?
    ensures reply.Err? ==> r.state == c.state && r.error == Some(reply.error)
  {
    match reply
    case Ok(gs) => Client(Some(gs), false, None)
    case Err(m) => Client(c.state, false, Some(m))
  }

  /** A click on cell `i` while the parent's current player is `player`.
      Nothing happens without a cached game, while a request is in flight,
      when the game is decided or when the cell is taken. Otherwise the move
      is sent with that player; on success the cache becomes the reply and
      the cell is reported upward, on failure the cache is kept and the
      message recorded. */
  function HandleClick(c: Client, i: int, player: Player, server: Request -> Reply): (r: ClickResult)
    ensures r.sent.None? <==> c.state.None? || c.loading || Decided(c.state.value) || !EmptyAt(c.state.value, i)
    ensures r.sent.None? ==> r.client == c && r.clicked.None?
    ensures r.sent.Some? ==> r.sent.value == MoveRequest(i, player) && !r.client.loading
    ensures r.sent.Some? && server(r.sent.value).Ok? ==>
      r.client.state == Some(server(r.sent.value).value) && r.client.error.None? && r.clicked == Some(i)
    ensures r.sent.Some? && server(r.sent.value).Err? ==>
      r.client.state == c.state && r.client.error == Some(server(r.sent.value).error) && r.clicked.None?
  {
    if c.state.None? || c.loading then ClickResult(c, None, None)
    else if Decided(c.state.value) || !EmptyAt(c.state.value, i) then ClickResult(c, None, None)
    else
      var req := MoveRequest(i, player);
      match server(req)
      case Ok(next) => ClickResult(Client(Some(next), false, None), Some(req), Some(i))
      case Err(m) => ClickResult(Client(c.state, false, Some(m)), Some(req), None)
  }

  /** A click on the button of cell `i`: ignored when the parent disables the
      sub-board, otherwise handled as above. */
  function CellClick(c: Client, disabled: bool, i: int, player: Player, server: Request -> Reply): (r: ClickResult)
    ensures disabled ==> r == ClickResult(c, None, None)
    ensures !disabled ==> r == HandleClick(c, i, player, server)
  {
    if disabled then ClickResult(c, None, None)
    else HandleClick(c, i, player, server)
  }

  /** The outcome reported through `onWin`: the winner, else `"draw"`, else
      `null` (also while there is no cached game). */
  function Reported(c: Client): (r: Option<Outcome>)
    ensures forall p :: r == Some(Won(p)) <==> c.state.Some? && c.state.value.winner == Some(p)
    ensures r == Some(Drawn) <==> c.state.Some? && c.state.value.winner.None? && c.state.value.isDraw
    ensures r.None? <==> c.state.None? || !Decided(c.state.value)
  {
    if c.state.None? then None
    else if c.state.value.winner.Some? then Some(Won(c.state.value.winner.value))
    else if c.state.value.isDraw then Some(Drawn)
    else None
  }

  /** The error view is on screen: the component holds a message that is
      not the empty string (an empty message is falsy and leaves the board,
      or the loading text, on screen). The error view replaces the board by
      the message and a Retry button. */
  predicate ErrorView(c: Client) {
    c.error.Some? && c.error.value != ""
  }

  /** The board is on screen: there is a cached game and no error view. */
  predicate Shown(c: Client) {
    c.state.Some? && !ErrorView(c)
  }

  /** Cell `i`'s button is enabled: the board is shown, `i` is one of its
      cells, and neither the parent, a request in flight, a filled cell, a
      winner nor a draw disables it. */
  function CellEnabled(c: Client, disabled: bool, i: int): (r: bool)
    ensures r ==> Shown(c) && EmptyAt(c.state.value, i) && !disabled && !c.loading
    ensures r ==> Reported(c).None?
  {
    && Shown(c)
    && 0 <= i < |c.state.value.board|
    && !(disabled || c.loading || c.state.value.board[i].Some? || c.state.value.winner.Some? || c.state.value.isDraw)
  }

  /** What cell `i` shows: the winner's mark across the whole board once there
      is one, otherwise the cell's own content. */
  function DisplayValue(st: Router.StateDto, i: int): (r: Option<Player>)
    requires 0 <= i < |st.board|
    ensures st.winner.None? ==> r == st.board[i]
    ensures st.winner.Some? ==> r == st.winner
  {
    if st.winner.Some? then st.winner else st.board[i]
  }

  /** What the cells show agrees with what the sub-board reports upward:
      every cell shows the winner of a won board, and an undecided or drawn
      board shows its own cells. */
  lemma DisplayMatchesReport(c: Client, i: int)
    requires c.state.Some? && 0 <= i < |c.state.value.board|
    ensures forall p :: Reported(c) == Some(Won(p)) ==> DisplayValue(c.state.value, i) == Some(p)
    ensures Reported(c) == Some(Drawn) || Reported(c).None? ==> DisplayValue(c.state.value, i) == c.state.value.board[i]
  {
  }

  /** On a shown board, a click reaches the backend exactly when its button is
      enabled, and it then carries the parent's current player. */
  lemma {:induction false} ClickSendsIffEnabled(c: Client, disabled: bool, i: int, player: Player, server: Request -> Reply)
    requires Shown(c)
    ensures CellClick(c, disabled, i, player, server).sent.Some? <==> CellEnabled(c, disabled, i)
    ensures CellEnabled(c, disabled, i) ==> CellClick(c, disabled, i, player, server).sent == Some(MoveRequest(i, player))
  {
  }

  /** A decided sub-board never changes through a click: its reported outcome
      stays and no request is sent. */
  lemma DecidedBoardIsFrozen(c: Client, disabled: bool, i: int, player: Player, server: Request -> Reply)
    requires Reported(c).Some?
    ensures CellClick(c, disabled, i, player, server) == ClickResult(c, None, None)
  {
  }
}
