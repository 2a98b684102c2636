/** The backtracking search as pure functions: `find_empty_location` and
    `solve_sudoku` on board values, with what they guarantee. */
module Search {
  import opened Board
  import opened Rules

  /** The first empty cell at or after `(row, col)` in row-major order. */
  function FirstEmptyFrom(b: Board, row: int, col: int): (r: Option<Pos>)
    requires IsBoard(b) && 0 <= row <= 9 && 0 <= col < 9
    ensures r.Some? ==> InGrid(r.value) && b[r.value.row][r.value.col] == 0
    decreases 9 - row, 9 - col
  {
    if row == 9 then None
    else if b[row][col] == 0 then Some(Pos(row, col))
    else if col == 8 then FirstEmptyFrom(b, row + 1, 0)
    else FirstEmptyFrom(b, row, col + 1)
  }

  /** `find_empty_location`: the first empty cell in row-major order. */
  function FirstEmpty(b: Board): (r: Option<Pos>)
    requires IsBoard(b)
    ensures r.Some? ==> InGrid(r.value) && b[r.value.row][r.value.col] == 0
  {
    FirstEmptyFrom(b, 0, 0)
  }

  /** The scan from `(row, col)` skips only filled cells: every cell from
      `(row, col)` up to the one it returns (or up to the end, when it
      returns `None`) is filled, and the one it returns is not before
      `(row, col)`. */
  lemma {:induction false} FirstEmptyFromScans(b: Board, row: int, col: int)
    requires IsBoard(b) && 0 <= row <= 9 && 0 <= col < 9
    ensures var r := FirstEmptyFrom(b, row, col);
      (r.Some? ==> !Before(r.value.row, r.value.col, Pos(row, col))) &&
      forall i, j ::
        0 <= i < 9 && 0 <= j < 9 && !Before(i, j, Pos(row, col)) &&
        (r.None? || Before(i, j, r.value))
        ==> b[i][j] != 0
    decreases 9 - row, 9 - col
  {
    if row == 9 || b[row][col] == 0 {
    } else if col == 8 {
      FirstEmptyFromScans(b, row + 1, 0);
    } else {
      FirstEmptyFromScans(b, row, col + 1);
    }
  }

  /** `find_empty_location` returns an empty cell before which, in row-major
      order, every cell is filled; it returns `None` exactly when the grid
      has no empty cell. */
  lemma FirstEmptyIsFirst(b: Board)
    requires IsBoard(b)
    ensures var r := FirstEmpty(b);
      (r.Some? ==> InGrid(r.value) && b[r.value.row][r.value.col] == 0) &&
      (r.Some? ==> forall i, j :: 0 <= i < 9 && 0 <= j < 9 && Before(i, j, r.value) ==> b[i][j] != 0) &&
      (r.None? <==> Full(b))
  {
    FirstEmptyFromScans(b, 0, 0);
  }

  /** Conversely, an empty cell preceded only by filled cells is the one
      `find_empty_location` returns. */
  lemma FirstEmptyUnique(b: Board, p: Pos)
    requires IsBoard(b) && InGrid(p) && b[p.row][p.col] == 0
    requires forall i, j :: 0 <= i < 9 && 0 <= j < 9 && Before(i, j, p) ==> b[i][j] != 0
    ensures FirstEmpty(b) == Some(p)
  {
    FirstEmptyIsFirst(b);
    var q := FirstEmpty(b).value;
    assert !Before(q.row, q.col, p);
    assert !Before(p.row, p.col, q);
  }

  /** `solve_sudoku(grid)`: `Some(solved grid)` on success, `None` when every
      digit at the first empty cell fails (the grid is then left as it was). */
  function Solve(b: Board): (r: Option<Board>)
    requires IsBoard(b)
    ensures r.Some? ==> IsBoard(r.value)
    decreases |EmptyCells(b)|, 1, 0
  {
    match FirstEmpty(b)
    case None => Some(b)
    case Some(p) => TryDigits(b, p, 1)
  }

  /** The `for num in range(1, 10)` loop of `solve_sudoku` from digit `num`
      on, at the empty cell `p`: place each digit `is_valid` accepts,
      recurse, and keep the first success. */
  function TryDigits(b: Board, p: Pos, num: int): (r: Option<Board>)
    requires IsBoard(b) && InGrid(p) && b[p.row][p.col] == 0 && 1 <= num <= 10
    ensures r.Some? ==> IsBoard(r.value)
    decreases |EmptyCells(b)|, 0, 10 - num
  {
    if num == 10 then None
    else if Placeable(b, num, p) then
      FillShrinksEmptyCells(b, p, num);
      var r := Solve(Set(b, p, num));
      if r.Some? then r else TryDigits(b, p, num + 1)
    else TryDigits(b, p, num + 1)
  }

  /** Placing digit `k` at the empty cell `p` is rejected by `is_valid` or
      leads to a failed search. */
  predicate DigitFails(b: Board, p: Pos, k: int)
    requires IsBoard(b) && InGrid(p) && b[p.row][p.col] == 0 && 1 <= k <= 9
  {
    !Placeable(b, k, p) || Solve(Set(b, p, k)).None?
  }

  /** A digit that fails leaves the loop to the next digit. */
  lemma TryDigitsSkips(b: Board, p: Pos, num: int)
    requires IsBoard(b) && InGrid(p) && b[p.row][p.col] == 0 && 1 <= num <= 9
    requires DigitFails(b, p, num)
    ensures TryDigits(b, p, num) == TryDigits(b, p, num + 1)
  {
  }

  /** The first digit that does not fail decides the loop: its search's
      result is the loop's result. */
  lemma TryDigitsTakes(b: Board, p: Pos, num: int)
    requires IsBoard(b) && InGrid(p) && b[p.row][p.col] == 0 && 1 <= num <= 9
    requires !DigitFails(b, p, num)
    ensures TryDigits(b, p, num) == Solve(Set(b, p, num))
  {
  }

  /** What a successful search hands back for input `b`: a full grid of
      digits that keeps every given of `b` and in which every cell that was
      empty in `b` clashes with no peer. */
  predicate FilledFrom(b: Board, s: Board)
    requires IsBoard(b)
  {
    WellFormed(s) && Full(s) && KeepsGivens(b, s) &&
    forall i, j :: 0 <= i < 9 && 0 <= j < 9 && b[i][j] == 0 ==> Consistent(s, i, j)
  }

  /** A grid with no empty cell is reported solved as it stands, even when
      its digits clash. */
  lemma SolveFull(b: Board)
    requires WellFormed(b) && Full(b)
    ensures Solve(b) == Some(b)
  {
    FirstEmptyIsFirst(b);
  }

  /** Soundness: a success only fills empty cells, fills all of them, and
      every digit it places clashes with no peer in the final grid. */
  lemma {:induction false} SolveSound(b: Board)
    requires WellFormed(b)
    ensures Solve(b).Some? ==> FilledFrom(b, Solve(b).value)
    decreases |EmptyCells(b)|, 1, 0
  {
    match FirstEmpty(b)
    case None => FirstEmptyIsFirst(b);
    case Some(p) => TryDigitsSound(b, p, 1);
  }

  /** Soundness of the digit loop from `num` on. */
  lemma {:induction false} TryDigitsSound(b: Board, p: Pos, num: int)
    requires WellFormed(b) && InGrid(p) && b[p.row][p.col] == 0 && 1 <= num <= 10
    ensures TryDigits(b, p, num).Some? ==> FilledFrom(b, TryDigits(b, p, num).value)
    decreases |EmptyCells(b)|, 0, 10 - num
  {
    if num == 10 {
    } else if DigitFails(b, p, num) {
      TryDigitsSkips(b, p, num);
      TryDigitsSound(b, p, num + 1);
    } else {
      var b' := Set(b, p, num);
      TryDigitsTakes(b, p, num);
      FillShrinksEmptyCells(b, p, num);
      SolveSound(b');
      PlacementKeepsFill(b, p, num, Solve(b').value);
    }
  }

  /** One step of soundness: a digit that `is_valid` accepted at `p` still
      clashes with nothing once the rest of the grid is filled, because
      every later placement avoided it. */
  lemma PlacementKeepsFill(b: Board, p: Pos, num: int, s: Board)
    requires WellFormed(b) && InGrid(p) && b[p.row][p.col] == 0 && 1 <= num <= 9
    requires Placeable(b, num, p) && FilledFrom(Set(b, p, num), s)
    ensures FilledFrom(b, s)
  {
    var b' := Set(b, p, num);
    PlaceableIffNoPeer(b, num, p);
    assert s[p.row][p.col] == num;
    forall i, j | 0 <= i < 9 && 0 <= j < 9 && Peer(p, i, j)
      ensures s[i][j] != num
    {
      if b'[i][j] == 0 {
        // the peer was filled later, so it avoided the digit at p
        assert Consistent(s, i, j);
        assert Peer(Pos(i, j), p.row, p.col);
      } else {
        assert s[i][j] == b[i][j];
      }
    }
    assert Consistent(s, p.row, p.col);
    forall i, j | 0 <= i < 9 && 0 <= j < 9 && b[i][j] == 0
      ensures Consistent(s, i, j)
    {
      if i != p.row || j != p.col {
        assert b'[i][j] == 0;
      }
    }
    assert KeepsGivens(b, s) by {
      forall i, j | 0 <= i < 9 && 0 <= j < 9 && b[i][j] != 0
        ensures s[i][j] == b[i][j]
      {
        assert b'[i][j] == b[i][j];
      }
    }
  }

  /** Completeness: when some solved Sudoku keeps the givens of `b`, the
      search succeeds; so a failure means that no such solution exists. */
  lemma {:induction false} SolveComplete(b: Board, c: Board)
    requires WellFormed(b) && IsSolution(c) && KeepsGivens(b, c)
    ensures Solve(b).Some?
    decreases |EmptyCells(b)|, 1, 0
  {
    match FirstEmpty(b)
    case None =>
    case Some(p) => TryDigitsComplete(b, p, 1, c);
  }

  /** Completeness of the digit loop: it reaches the solution's digit at
      `p` at the latest, and that digit succeeds. */
  lemma {:induction false} TryDigitsComplete(b: Board, p: Pos, num: int, c: Board)
    requires WellFormed(b) && InGrid(p) && b[p.row][p.col] == 0
    requires IsSolution(c) && KeepsGivens(b, c)
    requires 1 <= num <= c[p.row][p.col]
    ensures TryDigits(b, p, num).Some?
    decreases |EmptyCells(b)|, 0, 10 - num
  {
    if Placeable(b, num, p) && Solve(Set(b, p, num)).Some? {
    } else if num < c[p.row][p.col] {
      TryDigitsComplete(b, p, num + 1, c);
    } else {
      // num is the solution's digit at p: no given peer holds it ...
      assert Consistent(c, p.row, p.col);
      PlaceableIffNoPeer(b, num, p);
      assert Placeable(b, num, p);
      // ... and the solution still keeps the givens once it is placed
      var b' := Set(b, p, num);
      FillShrinksEmptyCells(b, p, num);
      SolveComplete(b', c);
      assert false;
    }
  }

  /** A failure means that no solved Sudoku keeps the givens. */
  lemma SolveFailsOnlyWithoutSolution(b: Board)
    requires WellFormed(b) && Solve(b).None?
    ensures forall c :: IsSolution(c) ==> !KeepsGivens(b, c)
  {
    forall c | IsSolution(c)
      ensures !KeepsGivens(b, c)
    {
      if KeepsGivens(b, c) {
        SolveComplete(b, c);
      }
    }
  }

  /** When the givens clash with nothing, a success is a solved Sudoku. The
      search itself never checks the givens: a full grid is accepted as it
      stands (see `SolveFull`). */
  lemma SolveYieldsSolution(b: Board)
    requires WellFormed(b) && GivensAgree(b)
    ensures Solve(b).Some? ==> IsSolution(Solve(b).value)
  {
    SolveSound(b);
    if Solve(b).None? {
      return;
    }
    var s := Solve(b).value;
    forall i, j | 0 <= i < 9 && 0 <= j < 9 && b[i][j] != 0
      ensures Consistent(s, i, j)
    {
      forall k, l | 0 <= k < 9 && 0 <= l < 9 && Peer(Pos(i, j), k, l)
        ensures s[k][l] != s[i][j]
      {
        if b[k][l] == 0 {
          // the peer was filled by the search, which avoided this given
          assert Consistent(s, k, l);
          assert Peer(Pos(k, l), i, j);
        } else {
          assert Consistent(b, i, j);
        }
      }
    }
  }

  /** Digits are tried in ascending order: the digit a success leaves at the
      first empty cell is accepted by `is_valid`, its branch yields exactly
      this result, and every smaller digit fails. */
  lemma SolveTriesAscending(b: Board)
    requires WellFormed(b) && FirstEmpty(b).Some? && Solve(b).Some?
    ensures var p, s := FirstEmpty(b).value, Solve(b).value;
      var d := s[p.row][p.col];
      1 <= d <= 9 && Placeable(b, d, p) && Solve(Set(b, p, d)) == Solve(b) &&
      forall k :: 1 <= k < d ==> DigitFails(b, p, k)
  {
    var p := FirstEmpty(b).value;
    var d := FirstSucceedingDigit(b, p);
    FillShrinksEmptyCells(b, p, d);
    assert TryDigits(b, p, d) == Solve(Set(b, p, d));
    assert Solve(Set(b, p, d)).value[p.row][p.col] == d by {
      SolveSound(Set(b, p, d));
      assert KeepsGivens(Set(b, p, d), Solve(Set(b, p, d)).value);
    }
  }

  /** The digit loop ends at the first digit `d` that does not fail. */
  lemma FirstSucceedingDigit(b: Board, p: Pos) returns (d: int)
    requires IsBoard(b) && InGrid(p) && b[p.row][p.col] == 0
    requires TryDigits(b, p, 1).Some?
    ensures 1 <= d <= 9 && SkippedBelow(b, p, d) && !DigitFails(b, p, d)
  {
    d := 1;
    while d < 10 && DigitFails(b, p, d)
      invariant 1 <= d <= 10 && SkippedBelow(b, p, d)
    {
      SkipOneMore(b, p, d);
      d := d + 1;
    }
    SkipStopsBeforeTen(b, p, d);
  }

  /** A loop that succeeds cannot have skipped all nine digits. */
  lemma SkipStopsBeforeTen(b: Board, p: Pos, d: int)
    requires IsBoard(b) && InGrid(p) && b[p.row][p.col] == 0 && 1 <= d <= 10
    requires TryDigits(b, p, 1).Some? && SkippedBelow(b, p, d)
    ensures d <= 9
  {
  }

  /** Every digit below `d` failed, so the loop started at 1 behaves like
      the loop started at `d`. */
  predicate SkippedBelow(b: Board, p: Pos, d: int)
    requires IsBoard(b) && InGrid(p) && b[p.row][p.col] == 0 && 1 <= d <= 10
  {
    TryDigits(b, p, 1) == TryDigits(b, p, d) &&
    forall k :: 1 <= k < d ==> DigitFails(b, p, k)
  }

  /** One more failing digit extends the skipped prefix. */
  lemma SkipOneMore(b: Board, p: Pos, d: int)
    requires IsBoard(b) && InGrid(p) && b[p.row][p.col] == 0 && 1 <= d <= 9
    requires SkippedBelow(b, p, d) && DigitFails(b, p, d)
    ensures SkippedBelow(b, p, d + 1)
  {
    TryDigitsSkips(b, p, d);
  }
}
