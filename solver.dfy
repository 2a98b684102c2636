/** The solver as it runs: `find_empty_location`, `is_valid` and
    `solve_sudoku` over a mutable 9×9 array, each proved to compute what the
    pure definitions of modules `Search` and `Rules` say. */
module Solver {
  import opened Board
  import opened Rules
  import opened Search

  /** `find_empty_location(grid)`: scans rows top to bottom and each row left
      to right, and returns the first cell holding 0. */
  method FindEmptyLocation(g: array2<int>) returns (find: Option<Pos>)
    requires g.Length0 == 9 && g.Length1 == 9
    ensures find == FirstEmpty(Snapshot(g))
    ensures find.Some? ==>
      InGrid(find.value) && g[find.value.row, find.value.col] == 0 &&
      forall i, j :: 0 <= i < 9 && 0 <= j < 9 && Before(i, j, find.value) ==> g[i, j] != 0
    ensures find.None? <==> forall i, j :: 0 <= i < 9 && 0 <= j < 9 ==> g[i, j] != 0
  {
    for row := 0 to 9
      invariant forall i, j :: 0 <= i < row && 0 <= j < 9 ==> g[i, j] != 0
    {
      for col := 0 to 9
        invariant forall i, j :: 0 <= i < 9 && 0 <= j < 9 && Before(i, j, Pos(row, col)) ==> g[i, j] != 0
      {
        if g[row, col] == 0 {
          find := Some(Pos(row, col));
          FirstEmptyUnique(Snapshot(g), find.value);
          return;
        }
      }
    }
    find := None;
    FirstEmptyIsFirst(Snapshot(g));
  }

  /** `is_valid(grid, num, pos)`: three scans that reject `num` as soon as
      another cell of the row, the column or the 3×3 box holds it. */
  method IsValid(g: array2<int>, num: int, pos: Pos) returns (ok: bool)
    requires g.Length0 == 9 && g.Length1 == 9 && InGrid(pos)
    ensures ok == Placeable(Snapshot(g), num, pos)
  {
    // check row
    for i := 0 to 9
      invariant forall j :: 0 <= j < i && j != pos.col ==> g[pos.row, j] != num
    {
      if g[pos.row, i] == num && pos.col != i {
        assert Snapshot(g)[pos.row][i] == num;
        return false;
      }
    }
    // check column
    for i := 0 to 9
      invariant forall k :: 0 <= k < i && k != pos.row ==> g[k, pos.col] != num
    {
      if g[i, pos.col] == num && pos.row != i {
        assert Snapshot(g)[i][pos.col] == num;
        return false;
      }
    }
    // check 3×3 box
    var boxX := pos.col / 3;
    var boxY := pos.row / 3;
    for i := boxY * 3 to boxY * 3 + 3
      invariant forall k, j ::
        boxY * 3 <= k < i && boxX * 3 <= j < boxX * 3 + 3 && (k != pos.row || j != pos.col) ==> g[k, j] != num
    {
      for j := boxX * 3 to boxX * 3 + 3
        invariant forall k, l ::
          boxY * 3 <= k < i && boxX * 3 <= l < boxX * 3 + 3 && (k != pos.row || l != pos.col) ==> g[k, l] != num
        invariant forall l :: boxX * 3 <= l < j && (i != pos.row || l != pos.col) ==> g[i, l] != num
      {
        if g[i, j] == num && (i != pos.row || j != pos.col) {
          assert Snapshot(g)[i][j] == num;
          return false;
        }
      }
    }
    return true;
  }

  /** The assignment `grid[row][col] = v`: one cell changes, no other. */
  method Assign(g: array2<int>, p: Pos, v: int)
    requires g.Length0 == 9 && g.Length1 == 9 && InGrid(p)
    modifies g
    ensures Snapshot(g) == Set(old(Snapshot(g)), p, v)
  {
    g[p.row, p.col] := v;
    SnapshotIs(g, Set(old(Snapshot(g)), p, v));
  }

  /** `solve_sudoku(grid)`: fills the first empty cell with each digit that
      `is_valid` accepts, in ascending order, and recurses; on failure the
      cell is reset to 0. Returns whether the grid was solved, and leaves in
      the array exactly what `Solve` computes, or the input unchanged. */
  method SolveSudoku(g: array2<int>) returns (solved: bool)
    requires g.Length0 == 9 && g.Length1 == 9 && WellFormed(Snapshot(g))
    modifies g
    ensures solved == Solve(old(Snapshot(g))).Some?
    ensures solved ==> Snapshot(g) == Solve(old(Snapshot(g))).value
    ensures !solved ==> Snapshot(g) == old(Snapshot(g))
    ensures solved ==> FilledFrom(old(Snapshot(g)), Snapshot(g))
    ensures !solved ==> forall c :: IsSolution(c) ==> !KeepsGivens(old(Snapshot(g)), c)
    ensures Full(old(Snapshot(g))) ==> solved && Snapshot(g) == old(Snapshot(g))
    decreases |EmptyCells(Snapshot(g))|
  {
    ghost var b0 := Snapshot(g);
    var find := FindEmptyLocation(g);
    if find.None? {
      SolveSound(b0);
      SolveFull(b0);
      return true;
    }
    var pos := find.value;
    for num := 1 to 10
      invariant Snapshot(g) == b0
      invariant TryDigits(b0, pos, num) == Solve(b0)
    {
      var ok := IsValid(g, num, pos);
      if ok {
        Assign(g, pos, num);
        SetKeepsWellFormed(b0, pos, num);
        FillShrinksEmptyCells(b0, pos, num);
        solved := SolveSudoku(g);
        if solved {
          TryDigitsTakes(b0, pos, num);
          SolveSound(b0);
          return;
        }
        Assign(g, pos, 0);  // backtrack
        SetBackRestores(b0, pos, num);
      }
      TryDigitsSkips(b0, pos, num);
    }
    SolveFailsOnlyWithoutSolution(b0);
    return false;
  }
}
