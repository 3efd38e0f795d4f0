/** The frontend's meta-board: the nine sub-board results, the overall
    winner, the sub-board the next move is confined to, the current player,
    the last cell played and the key that remounts the sub-boards on a new
    game. The two recomputations the source runs after rendering (the active
    board and the overall winner) are applied synchronously by `Settle` at the
    end of every transition. */
module Meta {
  import opened Common
  import Lines

  /** Nine sub-board results, row-major: a winner's mark, `"draw"`, or
      `null` while undecided. */
  type Results = r: seq<Option<Outcome>> | |r| == 9 witness [None, None, None, None, None, None, None, None, None]

  datatype App = App(
    results: Results,
    bigWinner: Option<Outcome>,
    activeBoard: Option<int>,
    currentPlayer: Player,
    lastCell: Option<int>,
    gameKey: int)

  /** Every sub-board has reported a result. */
  predicate AllDecided(results: Results) {
    forall b | 0 <= b < 9 :: results[b].Some?
  }

  /** The overall result: the entry on the first complete line of results
      (three equal non-null entries, so three `"draw"`s count as well), else
      `"draw"` when every sub-board is decided, else `null`. Its contract is
      `CheckWinnerSpec`, kept apart so that the states that mention it stay
      cheap to reason about. */
  function CheckWinner(results: Results): (r: Option<Outcome>)
    ensures AllDecided(results) ==> r.Some?
    ensures r.Some? && r.value.Won? ==> r == Lines.FirstLine(results)
  {
    var w := Lines.FirstLine(results);
    if w.Some? then w
    else if AllDecided(results) then Some(Drawn)
    else None
  }

  /** A complete line decides the overall result, first line first; with no
      complete line the game is drawn exactly when every sub-board is
      decided, and undecided otherwise. A won game always has a line of that
      player's wins. */
  lemma CheckWinnerSpec(results: Results)
    ensures (exists k | 0 <= k < 8 :: Lines.Complete(results, k)) ==>
      CheckWinner(results) == Lines.FirstLine(results) && CheckWinner(results).Some?
    ensures (forall k | 0 <= k < 8 :: !Lines.Complete(results, k)) ==>
      && (CheckWinner(results) == Some(Drawn) <==> AllDecided(results))
      && (CheckWinner(results).None? <==> !AllDecided(results))
    ensures CheckWinner(results).None? ==> exists b | 0 <= b < 9 :: results[b].None?
    ensures forall p :: CheckWinner(results) == Some(Won(p)) ==>
      exists k | 0 <= k < 8 :: Lines.Complete(results, k) && results[Lines.Slots(k).0] == Some(Won(p))
  {
    Lines.FirstLineSpec(results);
    if Lines.FirstLine(results).Some? {
      Lines.FirstLineIsFirstComplete(results);
    }
  }

  /** The sub-board the next move is confined to: none before the first
      move, none when the sub-board matching the last cell played is already
      decided (or the cell is not one of the nine), that sub-board otherwise. */
  function ActiveFrom(results: Results, lastCell: Option<int>): (r: Option<int>)
    ensures r.Some? ==> lastCell == r && 0 <= r.value < 9 && results[r.value].None?
    ensures r.None? <==> lastCell.None? || !(0 <= lastCell.value < 9) || results[lastCell.value].Some?
  {
    if lastCell.None? then None
    else if !(0 <= lastCell.value < 9) || results[lastCell.value].Some? then None
    else lastCell
  }

  /** The derived fields agree with the results and the last cell. */
  predicate Settled(a: App) {
    a.bigWinner == CheckWinner(a.results) && a.activeBoard == ActiveFrom(a.results, a.lastCell)
  }

  /** Recomputes the derived fields, as the source's effects do after a
      render; nothing else changes. */
  function Settle(a: App): (r: App)
    ensures Settled(r)
    ensures r.results == a.results && r.currentPlayer == a.currentPlayer
    ensures r.lastCell == a.lastCell && r.gameKey == a.gameKey
    ensures Settled(a) ==> r == a
  {
    a.(bigWinner := CheckWinner(a.results), activeBoard := ActiveFrom(a.results, a.lastCell))
  }

  /** The state before any move and after every reset: all results null, no
      overall winner, no active board, X to move, no last cell. */
  predicate Fresh(a: App) {
    && (forall b | 0 <= b < 9 :: a.results[b].None?)
    && a.bigWinner.None? && a.activeBoard.None?
    && a.currentPlayer == X && a.lastCell.None?
  }

  /** The app on first render. */
  function Initial(): (a: App)
    ensures Fresh(a) && Settled(a) && a.gameKey == 0
  {
    App([None, None, None, None, None, None, None, None, None], None, None, X, None, 0)
  }

  /** `handleWin`: sub-board `index` reports `w`; only its entry changes. */
  function HandleWin(a: App, index: int, w: Option<Outcome>): (r: App)
    requires 0 <= index < 9
    ensures r.results[index] == w
    ensures forall b | 0 <= b < 9 && b != index :: r.results[b] == a.results[b]
    ensures r.currentPlayer == a.currentPlayer && r.lastCell == a.lastCell && r.gameKey == a.gameKey
    ensures Settled(r)
  {
    Settle(a.(results := a.results[index := w]))
  }

  /** The `onCellClick` handler: records the cell just played and passes the
      turn to the other player, once per accepted move. */
  function OnCellClick(a: App, cellIndex: int): (r: App)
    ensures r.lastCell == Some(cellIndex)
    ensures r.currentPlayer == Opponent(a.currentPlayer)
    ensures r.results == a.results && r.gameKey == a.gameKey
    ensures Settled(r)
  {
    Settle(a.(lastCell := Some(cellIndex), currentPlayer := Opponent(a.currentPlayer)))
  }

  /** Sub-board `b` ignores clicks: the game has an overall result, or the
      next move is confined to a different sub-board. */
  function Disabled(a: App, b: int): (r: bool)
    ensures a.bigWinner.Some? ==> r
    ensures a.bigWinner.None? && a.activeBoard.None? ==> !r
    ensures a.bigWinner.None? && a.activeBoard.Some? ==> (r <==> b != a.activeBoard.value)
  {
    a.bigWinner.Some? || (a.activeBoard.Some? && a.activeBoard.value != b)
  }

  /** `resetGame`: back to the fresh state, with the next game key so every
      sub-board is mounted anew. */
  function Reset(a: App): (r: App)
    ensures Fresh(r) && Settled(r)
    ensures r.gameKey == a.gameKey + 1
  {
    var start := App([None, None, None, None, None, None, None, None, None], None, None, X, None, a.gameKey + 1);
    Lines.EmptyGridNoLine(start.results);
    assert !AllDecided(start.results) by { assert start.results[0].None?; }
    Settle(start)
  }

  /** The app after `onCellClick` for each cell of `cells`, in order. */
  function Clicks(a: App, cells: seq<int>): (r: App)
    ensures r.results == a.results && r.gameKey == a.gameKey
    decreases |cells|
  {
    if cells == [] then a else Clicks(OnCellClick(a, cells[0]), cells[1..])
  }

  /** Each click flips the player once: after `n` clicks the player is the
      one before when `n` is even and the other one when it is odd. */
  lemma {:induction false} ClicksAlternate(a: App, cells: seq<int>)
    ensures Clicks(a, cells).currentPlayer == Flipped(a.currentPlayer, |cells|)
    decreases |cells|
  {
    if cells != [] {
      var a' := OnCellClick(a, cells[0]);
      ClicksAlternate(a', cells[1..]);
      FlipAfterOpponent(a.currentPlayer, |cells| - 1);
    }
  }

  /** From a reset, X is to move exactly after an even number of moves. */
  lemma ClicksFromReset(a: App, cells: seq<int>)
    ensures Clicks(Reset(a), cells).currentPlayer == X <==> |cells| % 2 == 0
  {
    ClicksAlternate(Reset(a), cells);
  }

  /** An active board always names an undecided sub-board, which is never
      disabled, while every other sub-board is. */
  lemma ActiveBoardIsPlayable(a: App, b: int)
    requires Settled(a)
    requires a.activeBoard.Some? && a.bigWinner.None?
    requires 0 <= b < 9
    ensures 0 <= a.activeBoard.value < 9 && a.results[a.activeBoard.value].None?
    ensures Disabled(a, b) <==> b != a.activeBoard.value
  {
  }

  /** A drawn sub-board acts as a third mark: it blocks a line of X's wins
      through it, and the game stays undecided. */
  lemma DrawBlocksLine()
    ensures CheckWinner([Some(Won(X)), Some(Won(X)), Some(Drawn), None, None, None, None, None, None]) == None
  {
    var results: Results := [Some(Won(X)), Some(Won(X)), Some(Drawn), None, None, None, None, None, None];
    CheckWinnerSpec(results);
    assert !AllDecided(results) by { assert results[3].None?; }
  }

  /** A line of three drawn sub-boards ends the game as a draw although six
      sub-boards are still undecided. */
  lemma ThreeDrawsEndTheGame()
    ensures CheckWinner([Some(Drawn), Some(Drawn), Some(Drawn), None, None, None, None, None, None]) == Some(Drawn)
  {
    var results: Results := [Some(Drawn), Some(Drawn), Some(Drawn), None, None, None, None, None, None];
    assert Lines.Complete(results, 0);
    CheckWinnerSpec(results);
  }

  /** Three of X's wins on the diagonal 0, 4, 8 give X the game. */
  lemma DiagonalWinsTheGame(results: Results)
    requires results[0] == Some(Won(X)) && results[4] == Some(Won(X)) && results[8] == Some(Won(X))
    requires forall k | 0 <= k < 8 :: Lines.Complete(results, k) ==> results[Lines.Slots(k).0] == Some(Won(X))
    ensures CheckWinner(results) == Some(Won(X))
  {
    assert Lines.Complete(results, 6);
    Lines.OnlyValueWins(results, Won(X));
    CheckWinnerSpec(results);
  }
}
