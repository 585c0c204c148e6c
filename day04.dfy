/** Day 4: ceres search. Part one counts the occurrences of XMAS in the eight
    directions of a letter grid; part two counts the crosses of two MAS words
    around an A. */
module Day04 {

  /** The input lines as a grid: at least one line, every line as long as the
      first and not empty. The source indexes `grid[0]` and every row up to
      the first row's width, so other grids make it panic. */
  predicate Rectangular(grid: seq<string>)
  {
    |grid| > 0 && |grid[0]| > 0 && forall r :: 0 <= r < |grid| ==> |grid[r]| == |grid[0]|
  }

  predicate InGrid(grid: seq<string>, r: int, c: int)
    requires Rectangular(grid)
  {
    0 <= r < |grid| && 0 <= c < |grid[0]|
  }

  /** The eight (row, column) directions, in the order the source tries them. */
  const Directions: seq<(int, int)> := [(0, 1), (1, 0), (1, 1), (-1, 1), (0, -1), (-1, 0), (-1, -1), (1, -1)]

  const Target: string := "XMAS"

  /** Letter i of XMAS sits i steps from (row, col) in direction k. */
  predicate Letter(grid: seq<string>, row: int, col: int, k: nat, i: nat)
    requires Rectangular(grid) && k < 8 && i < 4
  {
    var (dy, dx) := Directions[k];
    InGrid(grid, row + i * dy, col + i * dx) && grid[row + i * dy][col + i * dx] == Target[i]
  }

  /** XMAS is spelt from (row, col) in direction k, every letter in the grid. */
  predicate Occurs(grid: seq<string>, row: int, col: int, k: nat)
    requires Rectangular(grid) && k < 8
  {
    forall i :: 0 <= i < 4 ==> Letter(grid, row, col, k, i)
  }

  /** The directions among the first k in which XMAS starts at (row, col). */
  function DirCount(grid: seq<string>, row: int, col: int, k: nat): (n: nat)
    requires Rectangular(grid) && k <= 8
    ensures n <= k
  {
    if k == 0 then 0
    else DirCount(grid, row, col, k - 1) + (if Occurs(grid, row, col, k - 1) then 1 else 0)
  }

  /** Only an X starts a word, and it starts at most eight. */
  function CellCount(grid: seq<string>, row: int, col: int): (n: nat)
    requires Rectangular(grid) && InGrid(grid, row, col)
    ensures n <= 8
    ensures grid[row][col] != 'X' ==> n == 0
  {
    if grid[row][col] != 'X' then
      NoWordWithoutX(grid, row, col, 8);
      0
    else DirCount(grid, row, col, 8)
  }

  lemma {:induction false} NoWordWithoutX(grid: seq<string>, row: int, col: int, k: nat)
    requires Rectangular(grid) && InGrid(grid, row, col) && k <= 8
    requires grid[row][col] != 'X'
    ensures DirCount(grid, row, col, k) == 0
    decreases k
  {
    if k > 0 {
      NoWordWithoutX(grid, row, col, k - 1);
      assert !Letter(grid, row, col, k - 1, 0);
    }
  }

  /** The words starting in the first c cells of a row. */
  function RowCount(grid: seq<string>, row: nat, c: nat): nat
    requires Rectangular(grid) && row < |grid| && c <= |grid[0]|
  {
    if c == 0 then 0 else RowCount(grid, row, c - 1) + CellCount(grid, row, c - 1)
  }

  /** The words starting in the first r rows. */
  function GridCount(grid: seq<string>, r: nat): nat
    requires Rectangular(grid) && r <= |grid|
  {
    if r == 0 then 0 else GridCount(grid, r - 1) + RowCount(grid, r - 1, |grid[0]|)
  }

  /** The occurrences of XMAS, over all cells and directions. */
  function XmasCount(grid: seq<string>): nat
    requires Rectangular(grid)
  {
    GridCount(grid, |grid|)
  }

  /** With the start and the end of a direction in the grid, so are the cells
      between them: the source bounds-checks only the end. */
  lemma EndInGrid(grid: seq<string>, row: int, col: int, k: nat, i: int)
    requires Rectangular(grid) && k < 8 && InGrid(grid, row, col)
    requires InGrid(grid, row + 3 * Directions[k].0, col + 3 * Directions[k].1)
    requires 0 <= i < 4
    ensures InGrid(grid, row + i * Directions[k].0, col + i * Directions[k].1)
  {
  }

  /** The check of the source at one cell and direction: the end in bounds,
      then the letters M, A, S one by one. */
  method Matches(grid: seq<string>, row: nat, col: nat, k: nat) returns (matches: bool)
    requires Rectangular(grid) && k < 8 && InGrid(grid, row, col) && grid[row][col] == 'X'
    ensures matches <==> Occurs(grid, row, col, k)
  {
    var (dy, dx) := Directions[k];
    var endRow, endCol := row + dy * 3, col + dx * 3;
    if !(0 <= endRow < |grid| && 0 <= endCol < |grid[0]|) {
      assert !InGrid(grid, row + 3 * dy, col + 3 * dx);
      assert !Letter(grid, row, col, k, 3);
      return false;
    }
    assert Letter(grid, row, col, k, 0);
    matches := true;
    for i := 1 to 4
      invariant forall j :: 0 <= j < i ==> Letter(grid, row, col, k, j)
    {
      EndInGrid(grid, row, col, k, i);
      var r, c := row + i * dy, col + i * dx;
      if grid[r][c] != Target[i] {
        assert !Letter(grid, row, col, k, i);
        return false;
      }
      assert Letter(grid, row, col, k, i);
    }
  }

  /** The eight directions tried from one cell: the words starting there. */
  method CountFrom(grid: seq<string>, row: nat, col: nat) returns (n: nat)
    requires Rectangular(grid) && InGrid(grid, row, col)
    ensures n == CellCount(grid, row, col)
  {
    n := 0;
    if grid[row][col] != 'X' {
      return;
    }
    for k := 0 to 8
      invariant n == DirCount(grid, row, col, k)
    {
      var matches := Matches(grid, row, col, k);
      if matches {
        n := n + 1;
      }
    }
  }

  method PartOne(grid: seq<string>) returns (count: nat)
    requires Rectangular(grid)
    ensures count == XmasCount(grid)
  {
    var height, width := |grid|, |grid[0]|;
    count := 0;
    for row := 0 to height
      invariant count == GridCount(grid, row)
    {
      for col := 0 to width
        invariant count == GridCount(grid, row) + RowCount(grid, row, col)
      {
        var n := CountFrom(grid, row, col);
        count := count + n;
      }
    }
  }

  /** One end of a diagonal is M and the other S. */
  predicate Diagonal(a: char, b: char)
  {
    (a == 'M' && b == 'S') || (a == 'S' && b == 'M')
  }

  /** The four corner patterns the source lists (M.S/M.S, S.M/S.M, M.M/S.S,
      S.S/M.M) are exactly the corners where both diagonals read MAS in one
      direction or the other. */
  function IsCross(tl: char, tr: char, bl: char, br: char): (r: bool)
    ensures r <==> Diagonal(tl, br) && Diagonal(tr, bl)
  {
    (tl == 'M' && tr == 'S' && bl == 'M' && br == 'S') ||
    (tl == 'S' && tr == 'M' && bl == 'S' && br == 'M') ||
    (tl == 'M' && tr == 'M' && bl == 'S' && br == 'S') ||
    (tl == 'S' && tr == 'S' && bl == 'M' && br == 'M')
  }

  /** An interior A with MAS on both diagonals. */
  predicate CrossAt(grid: seq<string>, row: nat, col: nat)
    requires Rectangular(grid) && 1 <= row < |grid| - 1 && 1 <= col < |grid[0]| - 1
  {
    grid[row][col] == 'A' &&
    Diagonal(grid[row - 1][col - 1], grid[row + 1][col + 1]) &&
    Diagonal(grid[row - 1][col + 1], grid[row + 1][col - 1])
  }

  /** One past the last interior column, or 1 when there is none. */
  function ColumnsEnd(grid: seq<string>): nat
    requires Rectangular(grid)
  {
    if |grid[0]| >= 2 then |grid[0]| - 1 else 1
  }

  /** The crosses centred in the interior columns 1..c of a row. */
  function CrossRow(grid: seq<string>, row: nat, c: nat): (n: nat)
    requires Rectangular(grid) && 1 <= row < |grid| - 1 && 1 <= c <= ColumnsEnd(grid)
    ensures n <= c - 1
  {
    if c == 1 then 0 else CrossRow(grid, row, c - 1) + (if CrossAt(grid, row, c - 1) then 1 else 0)
  }

  /** The crosses centred in the interior rows 1..r. */
  function CrossRows(grid: seq<string>, r: nat): nat
    requires Rectangular(grid) && 1 <= r && r <= |grid| - 1
  {
    if r == 1 then 0 else CrossRows(grid, r - 1) + CrossRow(grid, r - 1, ColumnsEnd(grid))
  }

  /** The X-MAS crosses of the grid. A grid of fewer than three rows or columns
      has no interior cell and none. */
  function CrossCount(grid: seq<string>): (n: nat)
    requires Rectangular(grid)
    ensures |grid| < 3 || |grid[0]| < 3 ==> n == 0
  {
    if |grid| < 2 then 0
    else
      NoInteriorColumns(grid, |grid| - 1);
      CrossRows(grid, |grid| - 1)
  }

  lemma {:induction false} NoInteriorColumns(grid: seq<string>, r: nat)
    requires Rectangular(grid) && 1 <= r <= |grid| - 1
    ensures |grid[0]| < 3 ==> CrossRows(grid, r) == 0
    decreases r
  {
    if r > 1 {
      NoInteriorColumns(grid, r - 1);
    }
  }

  method PartTwo(grid: seq<string>) returns (count: nat)
    requires Rectangular(grid)
    ensures count == CrossCount(grid)
  {
    var height, width := |grid|, |grid[0]|;
    count := 0;
    if height < 2 {
      return;
    }
    for row := 1 to height - 1
      invariant count == CrossRows(grid, row)
    {
      // `1..width - 1`, which is empty when the width is 1 or 2
      for col := 1 to ColumnsEnd(grid)
        invariant count == CrossRows(grid, row) + CrossRow(grid, row, col)
      {
        if grid[row][col] != 'A' {
          continue;
        }
        var tl, tr, bl, br := grid[row - 1][col - 1], grid[row - 1][col + 1], grid[row + 1][col - 1], grid[row + 1][col + 1];
        if IsCross(tl, tr, bl, br) {
          count := count + 1;
        }
      }
    }
  }
}
