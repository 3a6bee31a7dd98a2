/** The Sudoku board as a value: nine rows of nine cells, 0 marking an empty
    cell. The scans the solver performs (row, column, box, first empty cell)
    are defined here as predicates and functions, together with the board
    invariants the search relies on and the lemmas that connect them. */
module Board {

  datatype Option<T> = None | Some(value: T)

  /** Row-major board; row i is g[i], the cell in row i and column j is g[i][j]. */
  type Grid = seq<seq<int>>

  /** A cell position (row, column). */
  type Cell = (int, int)

  predicate IsGrid(g: Grid) {
    |g| == 9 && forall i :: 0 <= i < 9 ==> |g[i]| == 9
  }

  predicate InGrid(i: int, j: int) {
    0 <= i < 9 && 0 <= j < 9
  }

  /** The board with cell (r, c) set to v (the assignment grid[row][col] = v). */
  function Place(g: Grid, r: int, c: int, v: int): (h: Grid)
    requires IsGrid(g) && InGrid(r, c)
    ensures IsGrid(h) && h[r][c] == v
    ensures forall i, j :: InGrid(i, j) && (i != r || j != c) ==> h[i][j] == g[i][j]
  {
    g[r := g[r][c := v]]
  }

  /** Two boards that agree on every cell are the same board. */
  lemma SameCells(a: Grid, b: Grid)
    requires IsGrid(a) && IsGrid(b)
    requires forall i, j :: InGrid(i, j) ==> a[i][j] == b[i][j]
    ensures a == b
  {
    forall i | 0 <= i < 9
      ensures a[i] == b[i]
    {
      assert forall j :: 0 <= j < 9 ==> a[i][j] == b[i][j];
    }
  }

  /** Undoing a trial assignment on an empty cell gives back the board. */
  lemma PlaceUndo(g: Grid, r: int, c: int, v: int)
    requires IsGrid(g) && InGrid(r, c) && g[r][c] == 0
    ensures Place(Place(g, r, c, v), r, c, 0) == g
  {
    SameCells(Place(Place(g, r, c, v), r, c, 0), g);
  }

  // ---------------------------------------------------------------------------
  // Constraint scans

  /** num occurs in row r. */
  predicate RowHas(g: Grid, r: int, num: int)
    requires IsGrid(g) && 0 <= r < 9
  {
    exists j :: 0 <= j < 9 && g[r][j] == num
  }

  /** num occurs in column c. */
  predicate ColHas(g: Grid, c: int, num: int)
    requires IsGrid(g) && 0 <= c < 9
  {
    exists i :: 0 <= i < 9 && g[i][c] == num
  }

  /** num occurs in the 3x3 block whose top-left cell is (br, bc). */
  predicate BoxHas(g: Grid, br: int, bc: int, num: int)
    requires IsGrid(g) && 0 <= br <= 6 && 0 <= bc <= 6
  {
    exists i, j :: br <= i < br + 3 && bc <= j < bc + 3 && g[i][j] == num
  }

  /** First row (or column) of the box band containing index x. */
  function Anchor(x: int): int {
    x - x % 3
  }

  predicate SameBox(i1: int, j1: int, i2: int, j2: int) {
    Anchor(i1) == Anchor(i2) && Anchor(j1) == Anchor(j2)
  }

  /** num may be written at (r, c): it is in neither the row, the column nor
      the box anchored at (r - r % 3, c - c % 3). */
  predicate IsSafe(g: Grid, r: int, c: int, num: int)
    requires IsGrid(g) && InGrid(r, c)
  {
    !RowHas(g, r, num) && !ColHas(g, c, num) && !BoxHas(g, Anchor(r), Anchor(c), num)
  }

  /** For an index x of the board, the anchored band from Anchor(r) holds
      exactly the indices of r's band. */
  lemma AnchorBand(x: int, r: int)
    requires 0 <= x < 9 && 0 <= r < 9
    ensures Anchor(r) <= x < Anchor(r) + 3 <==> Anchor(x) == Anchor(r)
  {
  }

  /** The anchored box scan finds num exactly when num sits in some cell of
      the 3x3 box that contains (r, c). */
  lemma {:induction false} BoxHasMeaning(g: Grid, r: int, c: int, num: int)
    requires IsGrid(g) && InGrid(r, c)
    ensures BoxHas(g, Anchor(r), Anchor(c), num) <==>
            exists i, j :: InGrid(i, j) && SameBox(i, j, r, c) && g[i][j] == num
  {
    if BoxHas(g, Anchor(r), Anchor(c), num) {
      var i, j :| Anchor(r) <= i < Anchor(r) + 3 && Anchor(c) <= j < Anchor(c) + 3 && g[i][j] == num;
      AnchorBand(i, r);
      AnchorBand(j, c);
      assert InGrid(i, j) && SameBox(i, j, r, c);
    }
    if exists i, j :: InGrid(i, j) && SameBox(i, j, r, c) && g[i][j] == num {
      var i, j :| InGrid(i, j) && SameBox(i, j, r, c) && g[i][j] == num;
      AnchorBand(i, r);
      AnchorBand(j, c);
    }
  }

  /** A peer of (r, c): a cell in its row, its column or its box. */
  predicate SeesCell(i: int, j: int, r: int, c: int) {
    i == r || j == c || SameBox(i, j, r, c)
  }

  /** check_if_safe succeeds exactly when no cell sharing a row, column or box
      with (r, c) holds num. */
  lemma SafeIffNoConflict(g: Grid, r: int, c: int, num: int)
    requires IsGrid(g) && InGrid(r, c)
    ensures IsSafe(g, r, c, num) <==>
            forall i, j :: InGrid(i, j) && SeesCell(i, j, r, c) ==> g[i][j] != num
  {
    BoxHasMeaning(g, r, c, num);
  }

  // ---------------------------------------------------------------------------
  // First empty cell, row-major

  /** (x, y) comes strictly before (i, j) in row-major order. */
  predicate Before(x: int, y: int, i: int, j: int) {
    x < i || (x == i && y < j)
  }

  ghost predicate Full(g: Grid)
    requires IsGrid(g)
  {
    forall i, j :: InGrid(i, j) ==> g[i][j] != 0
  }

  /** The first empty cell at or after (i, j) in row-major order. */
  function FirstEmptyFrom(g: Grid, i: int, j: int): (r: Option<Cell>)
    requires IsGrid(g) && 0 <= i <= 9 && 0 <= j <= 9
    ensures r.Some? ==> InGrid(r.value.0, r.value.1) && g[r.value.0][r.value.1] == 0
    decreases 9 - i, 9 - j
  {
    if i == 9 then None
    else if j == 9 then FirstEmptyFrom(g, i + 1, 0)
    else if g[i][j] == 0 then Some((i, j))
    else FirstEmptyFrom(g, i, j + 1)
  }

  /** The scan from (i, j) finds a cell at or after (i, j) with none empty
      between, and finds nothing only when no cell from (i, j) on is empty. */
  lemma {:induction false} FirstEmptyFromIsFirst(g: Grid, i: int, j: int)
    requires IsGrid(g) && 0 <= i <= 9 && 0 <= j <= 9
    ensures var r := FirstEmptyFrom(g, i, j);
      r.Some? ==> !Before(r.value.0, r.value.1, i, j) &&
                  forall x, y :: InGrid(x, y) && !Before(x, y, i, j) && Before(x, y, r.value.0, r.value.1)
                                 ==> g[x][y] != 0
    ensures FirstEmptyFrom(g, i, j).None? ==>
              forall x, y :: InGrid(x, y) && !Before(x, y, i, j) ==> g[x][y] != 0
    decreases 9 - i, 9 - j
  {
    if i == 9 {
    } else if j == 9 {
      FirstEmptyFromIsFirst(g, i + 1, 0);
    } else if g[i][j] != 0 {
      FirstEmptyFromIsFirst(g, i, j + 1);
    }
  }

  /** find_empty: the first cell holding 0 in row-major order, or None when
      the board has no empty cell. */
  function FirstEmpty(g: Grid): (r: Option<Cell>)
    requires IsGrid(g)
    ensures r.Some? ==> InGrid(r.value.0, r.value.1) && g[r.value.0][r.value.1] == 0
  {
    FirstEmptyFrom(g, 0, 0)
  }

  /** FirstEmpty finds nothing exactly on a full board, and otherwise every
      cell before the one it finds holds a nonzero value. */
  lemma FirstEmptyIsFirst(g: Grid)
    requires IsGrid(g)
    ensures FirstEmpty(g).None? <==> Full(g)
    ensures FirstEmpty(g).Some? ==>
              forall x, y :: InGrid(x, y) && Before(x, y, FirstEmpty(g).value.0, FirstEmpty(g).value.1) ==> g[x][y] != 0
  {
    FirstEmptyFromIsFirst(g, 0, 0);
  }

  // ---------------------------------------------------------------------------
  // Board invariants

  /** Two distinct cells that share a row, a column or a box. */
  predicate Peers(i1: int, j1: int, i2: int, j2: int) {
    (i1 != i2 || j1 != j2) && SeesCell(i1, j1, i2, j2)
  }

  /** The no-duplicate invariant: the nonzero values of every row, column
      and box are pairwise distinct. */
  ghost predicate Consistent(g: Grid)
    requires IsGrid(g)
  {
    forall i1, j1, i2, j2 :: InGrid(i1, j1) && InGrid(i2, j2) && Peers(i1, j1, i2, j2) && g[i1][j1] != 0
      ==> g[i1][j1] != g[i2][j2]
  }

  /** Every cell holds a value in 0..9 (the input shape). */
  ghost predicate InRange(g: Grid)
    requires IsGrid(g)
  {
    forall i, j :: InGrid(i, j) ==> 0 <= g[i][j] <= 9
  }

  /** A solved board: consistent and every cell a digit 1..9. */
  ghost predicate Valid(s: Grid) {
    IsGrid(s) && Consistent(s) && forall i, j :: InGrid(i, j) ==> 1 <= s[i][j] <= 9
  }

  /** s keeps every given (nonzero) cell of g. */
  ghost predicate Extends(s: Grid, g: Grid)
    requires IsGrid(s) && IsGrid(g)
  {
    forall i, j :: InGrid(i, j) && g[i][j] != 0 ==> s[i][j] == g[i][j]
  }

  /** s completes g: no empty cell is left, the givens are kept and every
      empty cell of g now holds a digit 1..9. */
  ghost predicate Completion(s: Grid, g: Grid)
    requires IsGrid(g)
  {
    IsGrid(s) && Full(s) && Extends(s, g) &&
    forall i, j :: InGrid(i, j) && g[i][j] == 0 ==> 1 <= s[i][j] <= 9
  }

  /** A consistent completion of a board in the range 0..9 is a valid board
      that keeps its givens. */
  lemma CompletionIsValid(s: Grid, g: Grid)
    requires IsGrid(g) && InRange(g) && Completion(s, g) && Consistent(s)
    ensures Valid(s) && Extends(s, g)
  {
  }

  /** A completion of g with a digit written at one of its empty cells is a
      completion of g. */
  lemma CompletionOfPlace(s: Grid, g: Grid, r: int, c: int, d: int)
    requires IsGrid(g) && InGrid(r, c) && g[r][c] == 0 && 1 <= d <= 9
    requires Completion(s, Place(g, r, c, d))
    ensures Completion(s, g)
  {
  }

  /** Writing a safe digit into an empty cell keeps the no-duplicate invariant. */
  lemma PlaceKeepsConsistent(g: Grid, r: int, c: int, num: int)
    requires IsGrid(g) && InGrid(r, c) && g[r][c] == 0
    requires Consistent(g) && IsSafe(g, r, c, num)
    ensures Consistent(Place(g, r, c, num))
  {
    SafeIffNoConflict(g, r, c, num);
    var h := Place(g, r, c, num);
    forall i1, j1, i2, j2 | InGrid(i1, j1) && InGrid(i2, j2) && Peers(i1, j1, i2, j2) && h[i1][j1] != 0
      ensures h[i1][j1] != h[i2][j2]
    {
      if i1 == r && j1 == c {
        assert SeesCell(i2, j2, r, c);
      } else if i2 == r && j2 == c {
        assert SeesCell(i1, j1, r, c);
      }
    }
  }

  /** A digit that a valid completion puts into an empty cell is safe there. */
  lemma SafeNecessary(g: Grid, s: Grid, r: int, c: int)
    requires IsGrid(g) && Valid(s) && Extends(s, g)
    requires InGrid(r, c) && g[r][c] == 0
    ensures IsSafe(g, r, c, s[r][c])
  {
    SafeIffNoConflict(g, r, c, s[r][c]);
    forall i, j | InGrid(i, j) && SeesCell(i, j, r, c)
      ensures g[i][j] != s[r][c]
    {
      if (i != r || j != c) && g[i][j] != 0 {
        assert Peers(r, c, i, j);
      }
    }
  }

  // ---------------------------------------------------------------------------
  // Empty cells and termination

  function ZeroCells(g: Grid): set<Cell>
    requires IsGrid(g)
  {
    set i, j | 0 <= i < 9 && 0 <= j < 9 && g[i][j] == 0 :: (i, j)
  }

  /** The number of empty cells. */
  function ZeroCount(g: Grid): nat
    requires IsGrid(g)
  {
    |ZeroCells(g)|
  }

  /** Filling an empty cell with a nonzero value removes exactly that cell
      from the empty cells. */
  lemma PlaceShrinksZeros(g: Grid, r: int, c: int, v: int)
    requires IsGrid(g) && InGrid(r, c) && g[r][c] == 0 && v != 0
    ensures ZeroCells(Place(g, r, c, v)) == ZeroCells(g) - {(r, c)}
  {
    var h := Place(g, r, c, v);
    forall p | p in ZeroCells(g) - {(r, c)}
      ensures p in ZeroCells(h)
    {
      assert InGrid(p.0, p.1) && h[p.0][p.1] == g[p.0][p.1];
    }
    assert (r, c) in ZeroCells(g);
    assert ZeroCells(g) == (ZeroCells(g) - {(r, c)}) + {(r, c)};
  }

  /** Hence the number of empty cells drops by exactly one. */
  lemma PlaceDecrementsZeroCount(g: Grid, r: int, c: int, v: int)
    requires IsGrid(g) && InGrid(r, c) && g[r][c] == 0 && v != 0
    ensures ZeroCount(Place(g, r, c, v)) == ZeroCount(g) - 1
  {
    PlaceShrinksZeros(g, r, c, v);
    assert (r, c) in ZeroCells(g);
  }

  // ---------------------------------------------------------------------------
  // Rows, columns and boxes of a solved board hold exactly the digits 1..9

  /** Row r; named to read alongside Column and Box. */
  function Row(g: Grid, r: int): seq<int>
    requires IsGrid(g) && 0 <= r < 9
  {
    g[r]
  }

  function Column(g: Grid, c: int): (col: seq<int>)
    requires IsGrid(g) && 0 <= c < 9
    ensures |col| == 9 && forall i :: 0 <= i < 9 ==> col[i] == g[i][c]
  {
    seq(9, i requires 0 <= i < 9 => g[i][c])
  }

  /** The nine cells of the box anchored at (br, bc), row by row. */
  function Box(g: Grid, br: int, bc: int): (box: seq<int>)
    requires IsGrid(g) && 0 <= br <= 6 && 0 <= bc <= 6
    ensures |box| == 9 && forall k :: 0 <= k < 9 ==> box[k] == g[br + k / 3][bc + k % 3]
  {
    seq(9, k requires 0 <= k < 9 => g[br + k / 3][bc + k % 3])
  }

  function Values(s: seq<int>): set<int> {
    set x | x in s
  }

  const Digits: set<int> := {1, 2, 3, 4, 5, 6, 7, 8, 9}

  /** Every row, every column and every box holds exactly the digits 1..9. */
  ghost predicate HoldsAllDigits(g: Grid)
    requires IsGrid(g)
  {
    (forall r :: 0 <= r < 9 ==> Values(Row(g, r)) == Digits) &&
    (forall c :: 0 <= c < 9 ==> Values(Column(g, c)) == Digits) &&
    (forall br, bc :: 0 <= br <= 6 && 0 <= bc <= 6 && br % 3 == 0 && bc % 3 == 0 ==>
       Values(Box(g, br, bc)) == Digits)
  }

  ghost predicate Distinct(s: seq<int>) {
    forall k1, k2 :: 0 <= k1 < k2 < |s| ==> s[k1] != s[k2]
  }

  lemma {:induction false} DistinctCard(s: seq<int>)
    requires Distinct(s)
    ensures |Values(s)| == |s|
  {
    if s != [] {
      var init, last := s[..|s| - 1], s[|s| - 1];
      assert Distinct(init);
      DistinctCard(init);
      assert s == init + [last];
      assert Values(s) == Values(init) + {last};
      assert last !in Values(init);
    }
  }

  lemma SubsetCard(a: set<int>, b: set<int>)
    requires a <= b
    ensures |a| <= |b|
  {
    assert b == a + (b - a);
    assert a * (b - a) == {};
  }

  /** Nine distinct digits are all of 1..9. */
  lemma Pigeonhole(s: seq<int>)
    requires |s| == 9 && Distinct(s)
    requires forall k :: 0 <= k < 9 ==> 1 <= s[k] <= 9
    ensures Values(s) == Digits
  {
    DistinctCard(s);
    assert Values(s) <= Digits;
    if Values(s) != Digits {
      var d :| d in Digits && d !in Values(s);
      SubsetCard(Values(s), Digits - {d});
    }
  }

  lemma RowDistinct(s: Grid, r: int)
    requires IsGrid(s) && Consistent(s) && Full(s) && 0 <= r < 9
    ensures Distinct(Row(s, r))
  {
    forall k1, k2 | 0 <= k1 < k2 < 9
      ensures Row(s, r)[k1] != Row(s, r)[k2]
    {
      assert Peers(r, k1, r, k2);
    }
  }

  lemma ColumnDistinct(s: Grid, c: int)
    requires IsGrid(s) && Consistent(s) && Full(s) && 0 <= c < 9
    ensures Distinct(Column(s, c))
  {
    forall k1, k2 | 0 <= k1 < k2 < 9
      ensures Column(s, c)[k1] != Column(s, c)[k2]
    {
      assert Peers(k1, c, k2, c);
    }
  }

  lemma BoxDistinct(s: Grid, br: int, bc: int)
    requires IsGrid(s) && Consistent(s) && Full(s)
    requires 0 <= br <= 6 && 0 <= bc <= 6 && br % 3 == 0 && bc % 3 == 0
    ensures Distinct(Box(s, br, bc))
  {
    var box := Box(s, br, bc);
    forall k1, k2 | 0 <= k1 < k2 < 9
      ensures box[k1] != box[k2]
    {
      BoxCell(br, bc, k1);
      BoxCell(br, bc, k2);
      assert k1 / 3 != k2 / 3 || k1 % 3 != k2 % 3;
      assert Peers(br + k1 / 3, bc + k1 % 3, br + k2 / 3, bc + k2 % 3);
    }
  }

  /** Entry k of the box anchored at (br, bc) is a cell of that box. */
  lemma BoxCell(br: int, bc: int, k: int)
    requires 0 <= br <= 6 && 0 <= bc <= 6 && br % 3 == 0 && bc % 3 == 0 && 0 <= k < 9
    ensures InGrid(br + k / 3, bc + k % 3)
    ensures Anchor(br + k / 3) == br && Anchor(bc + k % 3) == bc
  {
  }

  /** In a valid board every row, column and box is exactly {1..9}. */
  lemma ValidHoldsAllDigits(s: Grid)
    requires Valid(s)
    ensures HoldsAllDigits(s)
  {
    forall r | 0 <= r < 9
      ensures Values(Row(s, r)) == Digits
    {
      RowDistinct(s, r);
      Pigeonhole(Row(s, r));
    }
    forall c | 0 <= c < 9
      ensures Values(Column(s, c)) == Digits
    {
      ColumnDistinct(s, c);
      Pigeonhole(Column(s, c));
    }
    forall br, bc | 0 <= br <= 6 && 0 <= bc <= 6 && br % 3 == 0 && bc % 3 == 0
      ensures Values(Box(s, br, bc)) == Digits
    {
      BoxDistinct(s, br, bc);
      Pigeonhole(Box(s, br, bc));
    }
  }
}
