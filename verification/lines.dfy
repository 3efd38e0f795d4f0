/** The line-matching rule both layers apply to a 3x3 grid stored row-major in
    nine slots: the backend to the cells of one board, the frontend to the
    nine sub-board results. A slot is either empty or carries a value; a line
    is complete when its three slots carry one and the same value. */
module Lines {
  import opened Common

  /** The eight lines, in the order they are checked: three rows, three
      columns, two diagonals. */
  const WinLines: seq<(int, int, int)> := [
    (0, 1, 2), (3, 4, 5), (6, 7, 8),
    (0, 3, 6), (1, 4, 7), (2, 5, 8),
    (0, 4, 8), (2, 4, 6)
  ]

  /** The slots of line `k`, as the table above lists them. */
  function Slots(k: int): (l: (int, int, int))
    requires 0 <= k < 8
    ensures 0 <= l.0 < 9 && 0 <= l.1 < 9 && 0 <= l.2 < 9
    ensures l.0 < l.1 < l.2
  {
    WinLines[k]
  }

  /** Line `k` of `g` is filled with one value throughout. */
  predicate Complete<T(==)>(g: seq<Option<T>>, k: int)
    requires |g| == 9 && 0 <= k < 8
  {
    var (a, b, c) := Slots(k);
    g[a].Some? && g[a] == g[b] && g[a] == g[c]
  }

  /** Line `k` is complete and no line checked before it is. */
  predicate FirstComplete<T(==)>(g: seq<Option<T>>, k: int)
    requires |g| == 9 && 0 <= k < 8
  {
    Complete(g, k) && forall j | 0 <= j < k :: !Complete(g, j)
  }

  /** The value on the first complete line at or after position `k` of the
      order, if there is one. */
  function FirstLineFrom<T(==)>(g: seq<Option<T>>, k: int): Option<T>
    requires |g| == 9 && 0 <= k <= 8
    decreases 8 - k
  {
    if k == 8 then None
    else if Complete(g, k) then g[Slots(k).0]
    else FirstLineFrom(g, k + 1)
  }

  /** The value on the first complete line in `WinLines` order, or `None`
      when no line is complete. Its contract is `FirstLineSpec`, kept apart
      so that the many states that mention it stay cheap to reason about. */
  function FirstLine<T(==)>(g: seq<Option<T>>): Option<T>
    requires |g| == 9
  {
    FirstLineFrom(g, 0)
  }

  lemma {:induction false} FirstLineFromSpec<T>(g: seq<Option<T>>, k: int)
    requires |g| == 9 && 0 <= k <= 8
    ensures FirstLineFrom(g, k).None? <==> forall j | k <= j < 8 :: !Complete(g, j)
    ensures forall j | k <= j < 8 :: Complete(g, j) && (forall i | k <= i < j :: !Complete(g, i)) ==>
      FirstLineFrom(g, k) == g[Slots(j).0]
    decreases 8 - k
  {
    if k < 8 && !Complete(g, k) {
      FirstLineFromSpec(g, k + 1);
    }
  }

  /** The rule answers `None` exactly when no line is complete, and otherwise
      the value on the first complete line in `WinLines` order. */
  lemma FirstLineSpec<T>(g: seq<Option<T>>)
    requires |g| == 9
    ensures FirstLine(g).None? <==> forall k | 0 <= k < 8 :: !Complete(g, k)
    ensures forall k | 0 <= k < 8 :: FirstComplete(g, k) ==> FirstLine(g) == g[Slots(k).0]
  {
    FirstLineFromSpec(g, 0);
  }

  /** Whenever some line is complete, the result is the value of the first
      one; this is the existence half that `FirstLine`'s contract leaves to
      the caller. */
  lemma {:induction false} FirstLineIsFirstComplete<T>(g: seq<Option<T>>)
    requires |g| == 9
    requires FirstLine(g).Some?
    ensures exists k | 0 <= k < 8 :: FirstComplete(g, k) && FirstLine(g) == g[Slots(k).0]
  {
    FirstLineSpec(g);
    var k := 0;
    while !Complete(g, k)
      invariant 0 <= k < 8
      invariant forall j | 0 <= j < k :: !Complete(g, j)
      decreases 8 - k
    {
      k := k + 1;
    }
    assert FirstComplete(g, k);
  }

  /** When every complete line carries the same value `v` and at least one
      line is complete, the rule answers `v`: with one line of three equal
      marks and no other complete line, that mark is returned. */
  lemma {:induction false} OnlyValueWins<T>(g: seq<Option<T>>, v: T)
    requires |g| == 9
    requires exists k | 0 <= k < 8 :: Complete(g, k)
    requires forall k | 0 <= k < 8 :: Complete(g, k) ==> g[Slots(k).0] == Some(v)
    ensures FirstLine(g) == Some(v)
  {
    FirstLineIsFirstComplete(g);
  }

  /** An empty grid has no winner. */
  lemma EmptyGridNoLine<T>(g: seq<Option<T>>)
    requires |g| == 9
    requires forall i | 0 <= i < 9 :: g[i].None?
    ensures FirstLine(g) == None
  {
    FirstLineSpec(g);
  }
}
