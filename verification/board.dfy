/** The 9x9 Sudoku board: coordinates, boxes, and the relation "two cells
    must not hold the same digit" (same row, same column or same box). */
module Board {

  /** Side of the grid; also the number of digits. Arithmetic below writes
      the literals 9 and 81 instead of Size and CellCount: with a literal
      factor, products such as `row * 9` stay linear for the solver. */
  const Size := 9
  /** Number of cells on the board. */
  const CellCount := 81

  /** A board as a value: Size rows of Size integers, 0 meaning empty. */
  type Grid = seq<seq<int>>

  datatype Cell = Cell(row: int, col: int)

  predicate InRange(i: int) { 0 <= i < Size }

  predicate IsGrid(g: Grid) {
    |g| == Size && forall r :: 0 <= r < Size ==> |g[r]| == Size
  }

  /** Every cell holds 0 (empty) or a digit 1..9. */
  predicate HoldsDigits(g: Grid)
    requires IsGrid(g)
  {
    forall r, c :: 0 <= r < Size && 0 <= c < Size ==> 0 <= g[r][c] <= 9
  }

  /** The all-empty board a new game starts from. */
  const EmptyRow: seq<int> := [0, 0, 0, 0, 0, 0, 0, 0, 0]
  const EmptyGrid: Grid :=
    [EmptyRow, EmptyRow, EmptyRow, EmptyRow, EmptyRow, EmptyRow, EmptyRow, EmptyRow, EmptyRow]

  lemma EmptyGridShape()
    ensures IsGrid(EmptyGrid) && HoldsDigits(EmptyGrid)
    ensures forall r, c :: 0 <= r < Size && 0 <= c < Size ==> EmptyGrid[r][c] == 0
  {
  }

  /** The first n cells of row r of a 9x9 array. */
  ghost function RowPrefix(a: array2<int>, r: int, n: nat): (s: seq<int>)
    reads a
    requires a.Length0 == Size && a.Length1 == Size && InRange(r) && n <= Size
    ensures |s| == n
  {
    if n == 0 then [] else RowPrefix(a, r, n - 1) + [a[r, n - 1]]
  }

  /** The first n rows of a 9x9 array. */
  ghost function RowsPrefix(a: array2<int>, n: nat): (g: Grid)
    reads a
    requires a.Length0 == Size && a.Length1 == Size && n <= Size
    ensures |g| == n && forall r :: 0 <= r < n ==> |g[r]| == Size
  {
    if n == 0 then [] else RowsPrefix(a, n - 1) + [RowPrefix(a, n - 1, Size)]
  }

  /** The contents of a 9x9 array as a Grid value; its cells are given by
      SnapshotCells. */
  ghost function Snapshot(a: array2<int>): (g: Grid)
    reads a
    requires a.Length0 == Size && a.Length1 == Size
    ensures IsGrid(g)
  {
    RowsPrefix(a, Size)
  }

  lemma {:induction false} RowPrefixCells(a: array2<int>, r: int, n: nat)
    requires a.Length0 == Size && a.Length1 == Size && InRange(r) && n <= Size
    ensures forall c :: 0 <= c < n ==> RowPrefix(a, r, n)[c] == a[r, c]
  {
    if n > 0 {
      RowPrefixCells(a, r, n - 1);
    }
  }

  lemma {:induction false} RowsPrefixCells(a: array2<int>, n: nat)
    requires a.Length0 == Size && a.Length1 == Size && n <= Size
    ensures forall r, c :: 0 <= r < n && 0 <= c < Size ==> RowsPrefix(a, n)[r][c] == a[r, c]
  {
    if n > 0 {
      RowsPrefixCells(a, n - 1);
      RowPrefixCells(a, n - 1, Size);
    }
  }

  /** Cell (r, c) of the snapshot is element [r, c] of the array. */
  lemma {:induction false} SnapshotCells(a: array2<int>)
    requires a.Length0 == Size && a.Length1 == Size
    ensures forall r, c :: 0 <= r < Size && 0 <= c < Size ==> Snapshot(a)[r][c] == a[r, c]
  {
    RowsPrefixCells(a, Size);
  }

  /** An array whose every cell agrees with a Grid has that Grid as its snapshot. */
  lemma {:induction false} SnapshotIs(a: array2<int>, g: Grid)
    requires a.Length0 == Size && a.Length1 == Size && IsGrid(g)
    requires forall r, c :: 0 <= r < Size && 0 <= c < Size ==> a[r, c] == g[r][c]
    ensures Snapshot(a) == g
  {
    var s := Snapshot(a);
    SnapshotCells(a);
    forall r | 0 <= r < Size
      ensures s[r] == g[r]
    {
    }
  }

  /** Overwrites one cell, unconditionally. */
  function Set(g: Grid, row: int, col: int, v: int): (h: Grid)
    requires IsGrid(g) && InRange(row) && InRange(col)
    ensures IsGrid(h) && h[row][col] == v
    ensures forall r, c {:trigger h[r][c]} ::
              0 <= r < Size && 0 <= c < Size && (r != row || c != col) ==> h[r][c] == g[r][c]
  {
    g[row := g[row][col := v]]
  }

  /** Top row (or left column) of the 3x3 box holding row (or column) i. */
  function BoxStart(i: int): (s: int)
    requires InRange(i)
    ensures 0 <= s <= i < s + 3 <= Size
  {
    (i / 3) * 3
  }

  /** Box origins are multiples of three, so the nine boxes tile the grid. */
  lemma {:induction false} BoxStartAligned(i: int)
    requires InRange(i)
    ensures BoxStart(i) % 3 == 0 && BoxStart(i) in {0, 3, 6}
  {
  }

  /** j lies in the three rows (or columns) of the box of i exactly when
      the two share a box origin. */
  lemma {:induction false} BoxSpan(i: int, j: int)
    requires InRange(i) && InRange(j)
    ensures BoxStart(i) <= j < BoxStart(i) + 3 <==> BoxStart(j) == BoxStart(i)
  {
    var s, t := BoxStart(i), BoxStart(j);
    if s <= j < s + 3 {
      assert t == s by {
        assert j / 3 == s / 3;
      }
    }
  }

  predicate SameBox(r1: int, c1: int, r2: int, c2: int)
    requires InRange(r1) && InRange(c1) && InRange(r2) && InRange(c2)
  {
    BoxStart(r1) == BoxStart(r2) && BoxStart(c1) == BoxStart(c2)
  }

  /** Two distinct cells that share a row, a column or a box. */
  predicate Peers(r1: int, c1: int, r2: int, c2: int)
    requires InRange(r1) && InRange(c1) && InRange(r2) && InRange(c2)
  {
    (r1 != r2 || c1 != c2) && (r1 == r2 || c1 == c2 || SameBox(r1, c1, r2, c2))
  }

  /** Filled cell (r1, c1) and its peer (r2, c2) hold the same digit. */
  predicate Clash(g: Grid, r1: int, c1: int, r2: int, c2: int)
    requires IsGrid(g) && InRange(r1) && InRange(c1) && InRange(r2) && InRange(c2)
  {
    Peers(r1, c1, r2, c2) && g[r1][c1] != 0 && g[r1][c1] == g[r2][c2]
  }

  /** No filled cell shares its digit with one of its peers. */
  predicate Consistent(g: Grid)
    requires IsGrid(g)
  {
    forall r1, c1, r2, c2 ::
      0 <= r1 < Size && 0 <= c1 < Size && 0 <= r2 < Size && 0 <= c2 < Size ==> !Clash(g, r1, c1, r2, c2)
  }

  /** Number of empty cells among the first k cells in row-major order
      (cell j is row j / 9, column j % 9). */
  function EmptyCount(g: Grid, k: nat): (n: nat)
    requires IsGrid(g) && k <= CellCount
    ensures n <= k
  {
    if k == 0 then 0
    else EmptyCount(g, k - 1) + (if g[(k - 1) / 9][(k - 1) % 9] == 0 then 1 else 0)
  }

  lemma {:induction false} EmptyCountOfEmpty(k: nat)
    requires k <= CellCount
    ensures EmptyCount(EmptyGrid, k) == k
  {
    if k > 0 {
      EmptyCountOfEmpty(k - 1);
      EmptyGridShape();
    }
  }

  /** Filling one empty cell lowers the count by one when the cell is among the first k. */
  lemma {:induction false} EmptyCountAfterFill(g: Grid, row: int, col: int, v: int, k: nat)
    requires IsGrid(g) && InRange(row) && InRange(col) && k <= CellCount
    requires g[row][col] == 0 && v != 0
    ensures EmptyCount(Set(g, row, col, v), k) ==
            EmptyCount(g, k) - (if row * 9 + col < k then 1 else 0)
  {
    if k > 0 {
      EmptyCountAfterFill(g, row, col, v, k - 1);
      var j := k - 1;
      if j / 9 == row && j % 9 == col {
        assert j == row * 9 + col;
      } else {
        assert j != row * 9 + col;
      }
    }
  }

  /** A board with no empty cell among the first k holds a digit in each of them. */
  lemma {:induction false} NoEmptyPrefix(g: Grid, k: nat)
    requires IsGrid(g) && k <= CellCount && EmptyCount(g, k) == 0
    ensures forall j :: 0 <= j < k ==> g[j / 9][j % 9] != 0
  {
    if k > 0 {
      NoEmptyPrefix(g, k - 1);
    }
  }

  /** When no cell is counted empty, every cell is filled. */
  lemma {:induction false} FullWhenNoEmpty(g: Grid)
    requires IsGrid(g) && EmptyCount(g, CellCount) == 0
    ensures forall r, c :: 0 <= r < Size && 0 <= c < Size ==> g[r][c] != 0
  {
    NoEmptyPrefix(g, CellCount);
    forall r, c | 0 <= r < Size && 0 <= c < Size
      ensures g[r][c] != 0
    {
      var j := r * 9 + c;
      assert j / 9 == r && j % 9 == c;
    }
  }

  /** Some cell of the board is empty. */
  predicate HasEmptyCell(g: Grid)
    requires IsGrid(g)
  {
    exists r, c :: 0 <= r < Size && 0 <= c < Size && g[r][c] == 0
  }

  /** A board with as many empty cells as attempts left, one attempt or
      more, has an empty cell for the next attempt to find. */
  lemma {:induction false} EmptyCellForAttempt(g: Grid, left: nat)
    requires IsGrid(g) && EmptyCount(g, CellCount) == left && left > 0
    ensures HasEmptyCell(g)
  {
    EmptyCellExists(g, CellCount);
  }

  /** A positive count of empty cells means some cell is empty. */
  lemma {:induction false} EmptyCellExists(g: Grid, k: nat)
    requires IsGrid(g) && k <= CellCount && EmptyCount(g, k) > 0
    ensures exists r, c :: 0 <= r < Size && 0 <= c < Size && r * 9 + c < k && g[r][c] == 0
  {
    var j := k - 1;
    if g[j / 9][j % 9] == 0 {
      assert j / 9 * 9 + j % 9 == j;
    } else {
      EmptyCellExists(g, k - 1);
    }
  }
}
