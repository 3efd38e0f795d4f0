/** Shared vocabulary of the backend engine and the frontend: the optional and
    failure-carrying wrappers, the two player marks, and the outcome a finished
    sub-board reports to the meta-board. */
module Common {

  /** A value that may be absent: Python's `None`, JavaScript's `null`. */
  datatype Option<+T> = None | Some(value: T)

  /** Either a value or an error, in place of a raised exception or a
      rejected promise. */
  datatype Result<+T, +E> = Ok(value: T) | Err(error: E)

  /** The two marks, `"X"` and `"O"`. */
  datatype Player = X | O

  /** The mark that moves after `p`. */
  function Opponent(p: Player): (q: Player)
    ensures q != p
  {
    match p
    case X => O
    case O => X
  }

  /** The player to move after `n` turn flips starting from `p`. */
  function Flipped(p: Player, n: nat): (q: Player)
    ensures q == p <==> n % 2 == 0
  {
    if n == 0 then p else Opponent(Flipped(p, n - 1))
  }

  /** Flipping first and then `n` times is flipping `n + 1` times. */
  lemma {:induction false} FlipAfterOpponent(p: Player, n: nat)
    ensures Flipped(Opponent(p), n) == Flipped(p, n + 1)
  {
    if n > 0 {
      FlipAfterOpponent(p, n - 1);
    }
  }

  /** The string the source uses for a mark. */
  function Name(p: Player): (s: string)
    ensures |s| == 1
    ensures p == X <==> s == "X"
  {
    match p
    case X => "X"
    case O => "O"
  }

  /** What a sub-board reports to the meta-board once it is decided: the
      winner's mark, or the string `"draw"`. An undecided sub-board reports
      `null`, which is `None` of `Option<Outcome>`. */
  datatype Outcome = Won(player: Player) | Drawn
}
