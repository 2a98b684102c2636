/** The 9×9 Sudoku grid: cell positions, the grid as a value, and the
    value seen through a mutable `array2<int>`. 0 marks an empty cell. */
module Board {

  /** The result of a search that may find nothing (Python's `None`). */
  datatype Option<T> = None | Some(value: T)

  /** A cell position `(row, col)`, both 0-based. */
  datatype Pos = Pos(row: int, col: int)

  predicate InGrid(p: Pos) {
    0 <= p.row < 9 && 0 <= p.col < 9
  }

  /** Cell `(i, j)` comes strictly before `q` in row-major order (rows top
      to bottom, columns left to right). */
  predicate Before(i: int, j: int, q: Pos) {
    i < q.row || (i == q.row && j < q.col)
  }

  /** A grid as a value: nine rows of nine cells, `b[row][col]`. */
  type Board = seq<seq<int>>

  predicate IsBoard(b: Board) {
    |b| == 9 && forall i :: 0 <= i < 9 ==> |b[i]| == 9
  }

  /** Every cell holds 0 (empty) or a digit 1..9. */
  predicate WellFormed(b: Board) {
    IsBoard(b) && forall i, j :: 0 <= i < 9 && 0 <= j < 9 ==> 0 <= b[i][j] <= 9
  }

  /** No cell is empty. */
  predicate Full(b: Board)
    requires IsBoard(b)
  {
    forall i, j :: 0 <= i < 9 && 0 <= j < 9 ==> b[i][j] != 0
  }

  /** `s` keeps every digit that is already placed in `b`. */
  predicate KeepsGivens(b: Board, s: Board)
    requires IsBoard(b) && IsBoard(s)
  {
    forall i, j :: 0 <= i < 9 && 0 <= j < 9 && b[i][j] != 0 ==> s[i][j] == b[i][j]
  }

  /** The grid after the assignment `grid[p.row][p.col] = v`. */
  function Set(b: Board, p: Pos, v: int): (r: Board)
    requires IsBoard(b) && InGrid(p)
    ensures IsBoard(r) && r[p.row][p.col] == v
    ensures forall i, j :: 0 <= i < 9 && 0 <= j < 9 && (i != p.row || j != p.col) ==> r[i][j] == b[i][j]
  {
    b[p.row := b[p.row][p.col := v]]
  }

  /** The 81 cells of the grid. */
  function AllCells(): (cells: set<Pos>)
    ensures forall p :: p in cells <==> InGrid(p)
  {
    set i, j | 0 <= i < 9 && 0 <= j < 9 :: Pos(i, j)
  }

  /** The empty cells; their number is the search's measure. */
  function EmptyCells(b: Board): (e: set<Pos>)
    requires IsBoard(b)
    ensures forall p :: p in e <==> InGrid(p) && b[p.row][p.col] == 0
  {
    set p | p in AllCells() && b[p.row][p.col] == 0
  }

  /** Writing 0 or a digit keeps a grid well formed. */
  lemma SetKeepsWellFormed(b: Board, p: Pos, v: int)
    requires WellFormed(b) && InGrid(p) && 0 <= v <= 9
    ensures WellFormed(Set(b, p, v))
  {
  }

  /** Emptying a cell that was just filled gives back the grid before. */
  lemma SetBackRestores(b: Board, p: Pos, v: int)
    requires IsBoard(b) && InGrid(p) && b[p.row][p.col] == 0
    ensures Set(Set(b, p, v), p, 0) == b
  {
    BoardsEqual(Set(Set(b, p, v), p, 0), b);
  }

  /** Filling an empty cell with a non-zero value removes exactly that cell
      from the empty cells, so their number drops by one. */
  lemma FillShrinksEmptyCells(b: Board, p: Pos, v: int)
    requires IsBoard(b) && InGrid(p) && b[p.row][p.col] == 0 && v != 0
    ensures EmptyCells(Set(b, p, v)) == EmptyCells(b) - {p}
    ensures |EmptyCells(Set(b, p, v))| == |EmptyCells(b)| - 1
  {
    assert EmptyCells(Set(b, p, v)) == EmptyCells(b) - {p};
  }

  /** Two boards that agree on every cell are the same board. */
  lemma BoardsEqual(a: Board, b: Board)
    requires IsBoard(a) && IsBoard(b)
    requires forall i, j :: 0 <= i < 9 && 0 <= j < 9 ==> a[i][j] == b[i][j]
    ensures a == b
  {
    forall i | 0 <= i < 9
      ensures a[i] == b[i]
    {
      assert forall j :: 0 <= j < 9 ==> a[i][j] == b[i][j];
    }
  }

  /** The first `n` cells of row `i` of a 9×9 array. */
  ghost function RowOf(g: array2<int>, i: int, n: int): (r: seq<int>)
    reads g
    requires g.Length0 == 9 && g.Length1 == 9 && 0 <= i < 9 && 0 <= n <= 9
    ensures |r| == n && forall j :: 0 <= j < n ==> r[j] == g[i, j]
  {
    if n == 0 then [] else RowOf(g, i, n - 1) + [g[i, n - 1]]
  }

  /** The first `n` rows of a 9×9 array. */
  ghost function RowsOf(g: array2<int>, n: int): (b: seq<seq<int>>)
    reads g
    requires g.Length0 == 9 && g.Length1 == 9 && 0 <= n <= 9
    ensures |b| == n && forall i :: 0 <= i < n ==> b[i] == RowOf(g, i, 9)
  {
    if n == 0 then [] else RowsOf(g, n - 1) + [RowOf(g, n - 1, 9)]
  }

  /** The current contents of a 9×9 array as a board value. */
  ghost function Snapshot(g: array2<int>): (b: Board)
    reads g
    requires g.Length0 == 9 && g.Length1 == 9
    ensures IsBoard(b)
    ensures forall i, j :: 0 <= i < 9 && 0 <= j < 9 ==> b[i][j] == g[i, j]
  {
    RowsOf(g, 9)
  }

  /** An array that agrees cell by cell with a board has that board as its
      snapshot. */
  lemma SnapshotIs(g: array2<int>, b: Board)
    requires g.Length0 == 9 && g.Length1 == 9 && IsBoard(b)
    requires forall i, j :: 0 <= i < 9 && 0 <= j < 9 ==> g[i, j] == b[i][j]
    ensures Snapshot(g) == b
  {
    BoardsEqual(Snapshot(g), b);
  }
}
