/** The placement rule of Sudoku as `is_valid` checks it, its reading as
    "no peer holds the digit", and what a solved grid is. */
module Rules {
  import opened Board

  /** First row (or column) of the 3×3 box holding row (or column) `x`:
      `(x // 3) * 3`. */
  function BoxStart(x: int): (s: int)
    requires 0 <= x < 9
    ensures s % 3 == 0 && s <= x < s + 3 && 0 <= s <= 6
  {
    (x / 3) * 3
  }

  /** No other column of row `pos.row` holds `num`. */
  predicate RowFree(b: Board, num: int, pos: Pos)
    requires IsBoard(b) && InGrid(pos)
  {
    forall j :: 0 <= j < 9 && j != pos.col ==> b[pos.row][j] != num
  }

  /** No other row of column `pos.col` holds `num`. */
  predicate ColFree(b: Board, num: int, pos: Pos)
    requires IsBoard(b) && InGrid(pos)
  {
    forall i :: 0 <= i < 9 && i != pos.row ==> b[i][pos.col] != num
  }

  /** No other cell of the 3×3 box around `pos` holds `num`. */
  predicate BoxFree(b: Board, num: int, pos: Pos)
    requires IsBoard(b) && InGrid(pos)
  {
    var r0, c0 := BoxStart(pos.row), BoxStart(pos.col);
    forall i, j :: r0 <= i < r0 + 3 && c0 <= j < c0 + 3 && (i != pos.row || j != pos.col) ==> b[i][j] != num
  }

  /** `is_valid(grid, num, pos)`: the row, column and box checks all pass.
      The cell at `pos` itself is excluded from every check. */
  predicate Placeable(b: Board, num: int, pos: Pos)
    requires IsBoard(b) && InGrid(pos)
  {
    RowFree(b, num, pos) && ColFree(b, num, pos) && BoxFree(b, num, pos)
  }

  /** Cell `(i, j)` is a peer of `p`: a different cell in the same row, the
      same column or the same 3×3 box. */
  predicate Peer(p: Pos, i: int, j: int) {
    (i != p.row || j != p.col) &&
    (i == p.row || j == p.col || (i / 3 == p.row / 3 && j / 3 == p.col / 3))
  }

  /** No peer of `p` holds `num`. */
  predicate NoPeerHolds(b: Board, num: int, p: Pos)
    requires IsBoard(b)
  {
    forall i, j :: 0 <= i < 9 && 0 <= j < 9 && Peer(p, i, j) ==> b[i][j] != num
  }

  /** The digit in cell `(i, j)` clashes with none of its peers. */
  predicate Consistent(b: Board, i: int, j: int)
    requires IsBoard(b) && 0 <= i < 9 && 0 <= j < 9
  {
    NoPeerHolds(b, b[i][j], Pos(i, j))
  }

  /** A solved Sudoku: every cell holds a digit 1..9 that no peer repeats. */
  predicate IsSolution(s: Board) {
    WellFormed(s) && Full(s) &&
    forall i, j :: 0 <= i < 9 && 0 <= j < 9 ==> Consistent(s, i, j)
  }

  /** The digits already placed in `b` clash with no peer. */
  predicate GivensAgree(b: Board)
    requires IsBoard(b)
  {
    forall i, j :: 0 <= i < 9 && 0 <= j < 9 && b[i][j] != 0 ==> Consistent(b, i, j)
  }

  /** The box scan's range `BoxStart(x) .. BoxStart(x) + 3` holds exactly
      the rows (columns) `i` with `i // 3 == x // 3`; this is the step from
      the floor division of `is_valid` to the peer relation. */
  lemma BoxRange(x: int, i: int)
    requires 0 <= x < 9 && 0 <= i < 9
    ensures BoxStart(x) <= i < BoxStart(x) + 3 <==> i / 3 == x / 3
  {
  }

  /** The three scans of `is_valid` together accept `num` exactly when no
      peer of `pos` holds it. */
  lemma PlaceableIffNoPeer(b: Board, num: int, pos: Pos)
    requires IsBoard(b) && InGrid(pos)
    ensures Placeable(b, num, pos) <==> NoPeerHolds(b, num, pos)
  {
    // the box check of `is_valid` covers the same cells as `Peer`'s `/ 3` test
    forall i | 0 <= i < 9
      ensures BoxStart(pos.row) <= i < BoxStart(pos.row) + 3 <==> i / 3 == pos.row / 3
      ensures BoxStart(pos.col) <= i < BoxStart(pos.col) + 3 <==> i / 3 == pos.col / 3
    {
      BoxRange(pos.row, i);
      BoxRange(pos.col, i);
    }
  }

  /** What `pos` itself holds never changes the verdict of `is_valid`. */
  lemma PlaceableIgnoresOwnCell(b: Board, num: int, pos: Pos, v: int)
    requires IsBoard(b) && InGrid(pos)
    ensures Placeable(Set(b, pos, v), num, pos) == Placeable(b, num, pos)
  {
  }
}
