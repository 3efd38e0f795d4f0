/** The backend's single-board rule engine: a nine-cell board, the winner
    derived from the eight lines, the draw flag, and the move that validates,
    places a mark and derives the outcome. Boards are values here; see the
    README for how the source shares one board list between states. */
module Engine {
  import opened Common
  import Lines

  /** A cell is empty or holds a mark. */
  type Cell = Option<Player>

  /** Nine cells, row-major. */
  type Board = b: seq<Cell> | |b| == 9 witness [None, None, None, None, None, None, None, None, None]

  /** One game: its board, the winner if any, and the draw flag. */
  datatype GameState = GameState(board: Board, winner: Option<Player>, isDraw: bool)

  /** Why the engine refuses a move; each kind is one raised exception. */
  datatype MoveError = GameOver | OutOfRange | Occupied

  /** The exception's message, which the router passes on as the error detail. */
  function Detail(e: MoveError): (s: string)
    ensures s != []
  {
    match e
    case GameOver => "Game is already over."
    case OutOfRange => "Index must be in range [0, 8]."
    case Occupied => "Cell already occupied."
  }

  /** The mark on the first complete line in `WinLines` order, if any. */
  function CheckWinner(b: Board): (w: Option<Player>)
    ensures w.None? <==> forall k | 0 <= k < 8 :: !Lines.Complete(b, k)
    ensures forall k | 0 <= k < 8 :: Lines.FirstComplete(b, k) ==> w == b[Lines.Slots(k).0]
  {
    Lines.FirstLineSpec(b);
    Lines.FirstLine(b)
  }

  /** Every cell holds a mark. */
  predicate IsFull(b: Board) {
    forall i | 0 <= i < 9 :: b[i].Some?
  }

  /** A game that `move` refuses to continue. */
  predicate Over(s: GameState) {
    s.winner.Some? || s.isDraw
  }

  /** The flags agree with the board: the winner is the first line's mark, and
      the draw flag is set exactly when the board is full without a winner. */
  ghost predicate Consistent(s: GameState) {
    && s.winner == CheckWinner(s.board)
    && (s.isDraw <==> s.winner.None? && IsFull(s.board))
  }

  /** A fresh game: nine empty cells, no winner, not a draw. */
  function NewGame(): (s: GameState)
    ensures forall i | 0 <= i < 9 :: s.board[i].None?
    ensures !Over(s)
    ensures Consistent(s)
  {
    GameState([None, None, None, None, None, None, None, None, None], None, false)
  }

  /** Places `player` at `index`. The finished-game check comes first, then
      the range check, then the occupancy check; an accepted move changes
      exactly one cell and derives the winner before the draw, so the two are
      never set together. The engine does not check whose turn it is. */
  function Move(s: GameState, index: int, player: Player): (r: Result<GameState, MoveError>)
    ensures Over(s) ==> r == Err(GameOver)
    ensures !Over(s) && !(0 <= index < 9) ==> r == Err(OutOfRange)
    ensures !Over(s) && 0 <= index < 9 && s.board[index].Some? ==> r == Err(Occupied)
    ensures r.Ok? <==> !Over(s) && 0 <= index < 9 && s.board[index].None?
    ensures r.Ok? ==> r.value.board[index] == Some(player)
    ensures r.Ok? ==> forall j | 0 <= j < 9 && j != index :: r.value.board[j] == s.board[j]
    ensures r.Ok? ==> Consistent(r.value)
    ensures r.Ok? ==> !(r.value.winner.Some? && r.value.isDraw)
  {
    if Over(s) then Err(GameOver)
    else if !(0 <= index < 9) then Err(OutOfRange)
    else if s.board[index].Some? then Err(Occupied)
    else
      var board := s.board[index := Some(player)];
      var w := CheckWinner(board);
      if w.Some? then Ok(GameState(board, w, s.isDraw))
      else if IsFull(board) then Ok(GameState(board, s.winner, true))
      else Ok(GameState(board, s.winner, s.isDraw))
  }

  /** The empty cells at positions `k` to 8, in ascending order. */
  function EmptyCellsFrom(b: Board, k: int): (r: seq<int>)
    requires 0 <= k <= 9
    ensures forall j | 0 <= j < |r| :: k <= r[j] < 9 && b[r[j]].None?
    ensures forall i | k <= i < 9 && b[i].None? :: i in r
    ensures forall j, j' | 0 <= j < j' < |r| :: r[j] < r[j']
    decreases 9 - k
  {
    if k == 9 then []
    else if b[k].None? then [k] + EmptyCellsFrom(b, k + 1)
    else EmptyCellsFrom(b, k + 1)
  }

  /** The indices of the empty cells, ascending. */
  function AvailableMoves(s: GameState): (r: seq<int>)
    ensures forall i :: i in r <==> 0 <= i < 9 && s.board[i].None?
    ensures forall j, j' | 0 <= j < j' < |r| :: r[j] < r[j']
  {
    EmptyCellsFrom(s.board, 0)
  }

  /** The status line: "<mark> wins", else "draw", else "in progress". */
  function Status(s: GameState): (r: string)
    ensures r == "in progress" <==> !Over(s)
    ensures r == "draw" <==> s.winner.None? && s.isDraw
    ensures s.winner.Some? ==> r == Name(s.winner.value) + " wins"
  {
    if s.winner.Some? then Name(s.winner.value) + " wins"
    else if s.isDraw then "draw"
    else "in progress"
  }

  /** `xs` with every occurrence of `v` dropped. */
  function Without(xs: seq<int>, v: int): (r: seq<int>)
    ensures forall x :: x in r <==> x in xs && x != v
  {
    if xs == [] then []
    else if xs[0] == v then Without(xs[1..], v)
    else [xs[0]] + Without(xs[1..], v)
  }

  lemma {:induction false} EmptyCellsAfterFill(b: Board, c: Board, index: int, k: int)
    requires 0 <= index < 9 && 0 <= k <= 9
    requires b[index].None? && c[index].Some?
    requires forall j | 0 <= j < 9 && j != index :: c[j] == b[j]
    ensures EmptyCellsFrom(c, k) == Without(EmptyCellsFrom(b, k), index)
    ensures |EmptyCellsFrom(c, k)| + (if k <= index then 1 else 0) == |EmptyCellsFrom(b, k)|
    decreases 9 - k
  {
    if k < 9 {
      EmptyCellsAfterFill(b, c, index, k + 1);
      var rest := EmptyCellsFrom(b, k + 1);
      if b[k].None? {
        assert ([k] + rest)[1..] == rest;
      }
    }
  }

  /** After an accepted move the available moves are the previous ones with
      the played index removed, still ascending, and one fewer. */
  lemma AvailableAfterMove(s: GameState, index: int, player: Player)
    requires Move(s, index, player).Ok?
    ensures AvailableMoves(Move(s, index, player).value) == Without(AvailableMoves(s), index)
    ensures |AvailableMoves(Move(s, index, player).value)| + 1 == |AvailableMoves(s)|
  {
    EmptyCellsAfterFill(s.board, Move(s, index, player).value.board, index, 0);
  }

  lemma {:induction false} EmptyBoardCells(b: Board, k: int)
    requires forall i | 0 <= i < 9 :: b[i].None?
    requires 0 <= k <= 9
    ensures |EmptyCellsFrom(b, k)| == 9 - k
    ensures forall j | 0 <= j < 9 - k :: EmptyCellsFrom(b, k)[j] == k + j
    decreases 9 - k
  {
    if k < 9 {
      EmptyBoardCells(b, k + 1);
    }
  }

  /** A fresh game offers all nine cells, in order. */
  lemma FreshGameOffersAll()
    ensures |AvailableMoves(NewGame())| == 9
    ensures forall j | 0 <= j < 9 :: AvailableMoves(NewGame())[j] == j
  {
    EmptyBoardCells(NewGame().board, 0);
  }

  /** After the first move eight cells are left, none of them the one just
      played. */
  lemma AvailableAfterFirstMove(index: int, player: Player)
    requires 0 <= index < 9
    ensures Move(NewGame(), index, player).Ok?
    ensures index !in AvailableMoves(Move(NewGame(), index, player).value)
    ensures |AvailableMoves(Move(NewGame(), index, player).value)| == 8
  {
    FreshGameOffersAll();
    AvailableAfterMove(NewGame(), index, player);
  }

  /** A board is full exactly when it offers no move. */
  lemma FullIffNoMoves(s: GameState)
    ensures IsFull(s.board) <==> AvailableMoves(s) == []
  {
  }

  /** Placed marks are never removed: every cell filled before an accepted
      move holds the same mark afterwards. */
  lemma MoveKeepsMarks(s: GameState, index: int, player: Player, j: int)
    requires Move(s, index, player).Ok?
    requires 0 <= j < 9 && s.board[j].Some?
    ensures Move(s, index, player).value.board[j] == s.board[j]
  {
  }
}
