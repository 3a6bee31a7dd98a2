/** The solver as the source runs it: a 9x9 array of integers that
    solve_sudoku fills in place, with the scans find_empty, in_row, in_col,
    in_box and check_if_safe as loops over the array. Each method is proved
    against the board-value definitions of modules Board and Backtracking. */
module Solver {
  import opened Board
  import opened Backtracking

  /** Cells grid[i, j..8], in order. */
  ghost function RowFrom(grid: array2<int>, i: int, j: int): (row: seq<int>)
    requires grid.Length0 == 9 && grid.Length1 == 9 && 0 <= i < 9 && 0 <= j <= 9
    reads grid
    ensures |row| == 9 - j
    decreases 9 - j
  {
    if j == 9 then [] else [grid[i, j]] + RowFrom(grid, i, j + 1)
  }

  /** Rows i..8 of grid, in order. */
  ghost function RowsFrom(grid: array2<int>, i: int): (rows: seq<seq<int>>)
    requires grid.Length0 == 9 && grid.Length1 == 9 && 0 <= i <= 9
    reads grid
    ensures |rows| == 9 - i && forall k :: 0 <= k < |rows| ==> |rows[k]| == 9
    decreases 9 - i
  {
    if i == 9 then [] else [RowFrom(grid, i, 0)] + RowsFrom(grid, i + 1)
  }

  /** The board value held by a 9x9 array, read row by row. */
  ghost function Snapshot(grid: array2<int>): (g: Grid)
    requires grid.Length0 == 9 && grid.Length1 == 9
    reads grid
    ensures IsGrid(g)
  {
    RowsFrom(grid, 0)
  }

  /** Entry k - j of RowFrom(grid, i, j) is grid[i, k]. */
  lemma {:induction false} RowFromCells(grid: array2<int>, i: int, j: int)
    requires grid.Length0 == 9 && grid.Length1 == 9 && 0 <= i < 9 && 0 <= j <= 9
    ensures forall k :: j <= k < 9 ==> RowFrom(grid, i, j)[k - j] == grid[i, k]
    decreases 9 - j
  {
    if j < 9 {
      RowFromCells(grid, i, j + 1);
    }
  }

  /** Entry k - i of RowsFrom(grid, i) is row k of grid. */
  lemma {:induction false} RowsFromCells(grid: array2<int>, i: int)
    requires grid.Length0 == 9 && grid.Length1 == 9 && 0 <= i <= 9
    ensures forall k :: i <= k < 9 ==> RowsFrom(grid, i)[k - i] == RowFrom(grid, k, 0)
    decreases 9 - i
  {
    if i < 9 {
      RowsFromCells(grid, i + 1);
    }
  }

  /** Cell (i, j) of the board value is grid[i, j]. */
  lemma SnapshotCells(grid: array2<int>)
    requires grid.Length0 == 9 && grid.Length1 == 9
    ensures forall i, j :: InGrid(i, j) ==> Snapshot(grid)[i][j] == grid[i, j]
  {
    RowsFromCells(grid, 0);
    forall i, j | InGrid(i, j)
      ensures Snapshot(grid)[i][j] == grid[i, j]
    {
      assert Snapshot(grid)[i] == RowFrom(grid, i, 0);
      RowFromCells(grid, i, 0);
    }
  }

  /** The assignment grid[row][col] = v: one cell changes, as Place says. */
  method SetCell(grid: array2<int>, row: int, col: int, v: int)
    requires grid.Length0 == 9 && grid.Length1 == 9 && InGrid(row, col)
    modifies grid
    ensures Snapshot(grid) == Place(old(Snapshot(grid)), row, col, v)
  {
    SnapshotCells(grid);
    grid[row, col] := v;
    SnapshotCells(grid);
    SameCells(Snapshot(grid), Place(old(Snapshot(grid)), row, col, v));
  }

  /** find_empty: scans row by row for a cell holding 0 and, when it finds
      one, writes its row and column into the caller's two-element list. */
  method FindEmpty(grid: array2<int>, empty: array<int>) returns (found: bool)
    requires grid.Length0 == 9 && grid.Length1 == 9 && empty.Length == 2
    modifies empty
    ensures found == FirstEmpty(Snapshot(grid)).Some?
    ensures found ==> FirstEmpty(Snapshot(grid)).value == (empty[0], empty[1])
    ensures !found ==> empty[..] == old(empty[..])
  {
    SnapshotCells(grid);
    for i := 0 to 9
      invariant forall x, y :: InGrid(x, y) && x < i ==> grid[x, y] != 0
      invariant empty[..] == old(empty[..])
    {
      for j := 0 to 9
        invariant forall x, y :: InGrid(x, y) && Before(x, y, i, j) ==> grid[x, y] != 0
        invariant empty[..] == old(empty[..])
      {
        if grid[i, j] == 0 {
          empty[0] := i;
          empty[1] := j;
          ghost var first := FirstEmpty(Snapshot(grid));
          assert first.Some? && first.value == (i, j) by {
            FirstEmptyIsFirst(Snapshot(grid));
            assert !Full(Snapshot(grid));
            assert !Before(first.value.0, first.value.1, i, j);
          }
          return true;
        }
      }
    }
    return false;
  }

  /** in_row: whether num occurs in row `row`. */
  method InRow(grid: array2<int>, row: int, num: int) returns (found: bool)
    requires grid.Length0 == 9 && grid.Length1 == 9 && 0 <= row < 9
    ensures found == RowHas(Snapshot(grid), row, num)
  {
    SnapshotCells(grid);
    for j := 0 to 9
      invariant forall y :: 0 <= y < j ==> grid[row, y] != num
    {
      if grid[row, j] == num {
        return true;
      }
    }
    return false;
  }

  /** in_col: whether num occurs in column `col`. */
  method InCol(grid: array2<int>, col: int, num: int) returns (found: bool)
    requires grid.Length0 == 9 && grid.Length1 == 9 && 0 <= col < 9
    ensures found == ColHas(Snapshot(grid), col, num)
  {
    SnapshotCells(grid);
    for i := 0 to 9
      invariant forall x :: 0 <= x < i ==> grid[x, col] != num
    {
      if grid[i, col] == num {
        return true;
      }
    }
    return false;
  }

  /** in_box: whether num occurs in the 3x3 block whose top-left cell is
      (row, col); every index read lies in 0..8. */
  method InBox(grid: array2<int>, row: int, col: int, num: int) returns (found: bool)
    requires grid.Length0 == 9 && grid.Length1 == 9 && 0 <= row <= 6 && 0 <= col <= 6
    ensures found == BoxHas(Snapshot(grid), row, col, num)
  {
    SnapshotCells(grid);
    for i := 0 to 3
      invariant forall x, y :: row <= x < row + i && col <= y < col + 3 ==> grid[x, y] != num
    {
      for j := 0 to 3
        invariant forall x, y :: row <= x <= row + i && col <= y < col + 3 && (x < row + i || y < col + j)
                                 ==> grid[x, y] != num
      {
        if grid[i + row, j + col] == num {
          return true;
        }
      }
    }
    return false;
  }

  /** check_if_safe: num is absent from the row, the column and the box
      anchored at (row - row % 3, col - col % 3). */
  method CheckIfSafe(grid: array2<int>, row: int, col: int, num: int) returns (safe: bool)
    requires grid.Length0 == 9 && grid.Length1 == 9 && InGrid(row, col)
    ensures safe == IsSafe(Snapshot(grid), row, col, num)
  {
    var inRow := InRow(grid, row, num);
    if inRow {
      return false;
    }
    var inCol := InCol(grid, col, num);
    if inCol {
      return false;
    }
    var inBox := InBox(grid, row - row % 3, col - col % 3, num);
    return !inBox;
  }

  /** solve_sudoku: fills the empty cells of grid in place by depth-first
      search. The outcome and the final board are those of Solve on the
      input; on failure every trial write has been undone. */
  method SolveSudoku(grid: array2<int>) returns (solved: bool)
    requires grid.Length0 == 9 && grid.Length1 == 9
    modifies grid
    ensures solved == Solve(old(Snapshot(grid))).Some?
    ensures solved ==> Snapshot(grid) == Solve(old(Snapshot(grid))).value
    ensures !solved ==> Snapshot(grid) == old(Snapshot(grid))
    decreases ZeroCount(Snapshot(grid))
  {
    ghost var g0 := Snapshot(grid);

    var empty := new int[] [0, 0];
    var hasEmpty := FindEmpty(grid, empty);
    if !hasEmpty {
      return true;
    }
    var row, col := empty[0], empty[1];

    for num := 1 to 10
      invariant Snapshot(grid) == g0
      invariant TryDigits(g0, row, col, num) == Solve(g0)
    {
      TryDigitsStep(g0, row, col, num);
      var safe := CheckIfSafe(grid, row, col, num);
      if safe {
        SetCell(grid, row, col, num);
        PlaceDecrementsZeroCount(g0, row, col, num);
        solved := SolveSudoku(grid);
        if solved {
          return true;
        }
        SetCell(grid, row, col, 0);
        PlaceUndo(g0, row, col, num);
      }
    }
    return false;
  }

  datatype SolverError = ValueError

  datatype Result<T> = Success(value: T) | Failure(error: SolverError)

  /** get_board: the same grid, now solved, or ValueError when the search
      fails (the grid is then as it was given). */
  method GetBoard(grid: array2<int>) returns (r: Result<array2<int>>)
    requires grid.Length0 == 9 && grid.Length1 == 9
    modifies grid
    ensures r.Success? <==> Solve(old(Snapshot(grid))).Some?
    ensures r.Success? ==> r.value == grid && Snapshot(grid) == Solve(old(Snapshot(grid))).value
    ensures r.Success? ==> Completion(Snapshot(grid), old(Snapshot(grid)))
    ensures r.Success? && Consistent(old(Snapshot(grid))) && InRange(old(Snapshot(grid))) ==>
              HoldsAllDigits(Snapshot(grid))
    ensures r.Failure? ==> r.error == ValueError && Snapshot(grid) == old(Snapshot(grid))
    ensures r.Failure? ==> forall s :: Valid(s) ==> !Extends(s, old(Snapshot(grid)))
  {
    ghost var g0 := Snapshot(grid);
    SolveSound(g0);
    SolveComplete(g0);
    if Solve(g0).Some? && Consistent(g0) && InRange(g0) {
      SolvedHoldsAllDigits(g0);
    }
    var solved := SolveSudoku(grid);
    if solved {
      return Success(grid);
    } else {
      return Failure(ValueError);
    }
  }
}
