/** A sub-board component talking to the backend store rather than to an
    arbitrary oracle: the move request goes to the store's move endpoint for
    the component's game id, and the reply is that endpoint's answer (its
    error detail on failure). */
module Backed {
  import opened Common
  import Router
  import SubBoard

  /** The reply the component receives when the store answers `r`. */
  function AsReply(r: Result<Router.StateDto, Router.ApiError>): (reply: SubBoard.Reply)
    ensures r.Ok? <==> reply.Ok?
    ensures r.Ok? ==> reply.value == r.value
    ensures r.Err? ==> reply.error == Router.ErrorDetail(r.error)
  {
    match r
    case Ok(d) => Ok(d)
    case Err(e) => Err(Router.ErrorDetail(e))
  }

  /** The component lets a click on cell `i` through: its board is shown (no
      error view, so the cell's button exists), the parent does not disable
      it, no request is in flight, the game is undecided and the cell is
      empty. */
  predicate Passes(c: SubBoard.Client, disabled: bool, i: int) {
    SubBoard.Shown(c) && !disabled && !c.loading && !SubBoard.Decided(c.state.value) && SubBoard.EmptyAt(c.state.value, i)
  }

  /** A click on cell `i` of a component backed by `store`: the component's
      filter runs first; a move that passes it is applied by the store to the
      component's game, and the store's answer becomes the component's reply. */
  function Click(c: SubBoard.Client, store: Router.Store, disabled: bool, i: int, player: Player): (r: (SubBoard.ClickResult, Router.Store))
    ensures !Passes(c, disabled, i) <==> r.0.sent.None?
    ensures !Passes(c, disabled, i) ==> r == (SubBoard.ClickResult(c, None, None), store)
    ensures Passes(c, disabled, i) ==>
      var answer := Router.MakeMove(store, c.state.value.id, i, player);
      && r.1 == answer.0
      && r.0 == SubBoard.CellClick(c, disabled, i, player, _ => AsReply(answer.1))
  {
    if !Passes(c, disabled, i) then (SubBoard.ClickResult(c, None, None), store)
    else
      var answer := Router.MakeMove(store, c.state.value.id, i, player);
      (SubBoard.CellClick(c, disabled, i, player, _ => AsReply(answer.1)), answer.0)
  }

  /** The component's cache is the store's current state of its game. */
  predicate Coherent(c: SubBoard.Client, store: Router.Store) {
    c.state.Some? ==>
      && c.state.value.id in store
      && c.state.value == Router.ToDto(c.state.value.id, Router.Last(store[c.state.value.id]))
  }

  /** A coherent cache stays coherent through a click, and a move that passes
      the component's filter is never refused by the store: the filter sees
      exactly the state the engine checks. */
  lemma {:induction false} ClickKeepsCoherent(c: SubBoard.Client, store: Router.Store, disabled: bool, i: int, player: Player)
    requires Coherent(c, store)
    ensures Coherent(Click(c, store, disabled, i, player).0.client, Click(c, store, disabled, i, player).1)
    ensures Passes(c, disabled, i) ==> Router.MakeMove(store, c.state.value.id, i, player).1.Ok?
    ensures Passes(c, disabled, i) ==>
      Click(c, store, disabled, i, player).0.clicked == Some(i) && Click(c, store, disabled, i, player).0.client.error.None?
  {
    var r := Click(c, store, disabled, i, player);
    if r.0.sent.Some? {
      var st := c.state.value;
      var id := st.id;
      var g := Router.Last(store[id]);
      assert !g.winner.Some? && !g.isDraw && 0 <= i < 9 && g.board[i].None?;
      assert Router.MakeMove(store, id, i, player).1.Ok?;
    }
  }

  /** Two components with different game ids do not disturb each other: a
      click on one leaves the other's game in the store as it was. */
  lemma ClickLeavesOtherGames(c: SubBoard.Client, store: Router.Store, disabled: bool, i: int, player: Player, other: Router.GameId)
    requires c.state.Some? && other != c.state.value.id && other in store
    ensures other in Click(c, store, disabled, i, player).1
    ensures Click(c, store, disabled, i, player).1[other] == store[other]
  {
  }
}
