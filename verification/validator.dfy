/** The two read-only checks of the game: whether a digit may be placed at
    a cell (row, column and box), and which cells the Check button colours
    red (row and column duplicates only). */
module Validator {
  import opened Board

  /** `num` may go at (row, col): it occurs nowhere in the row, nowhere in
      the column and nowhere in the 3x3 box. All three scans include the
      target cell itself. */
  predicate Legal(g: Grid, row: int, col: int, num: int)
    requires IsGrid(g) && InRange(row) && InRange(col)
    ensures Legal(g, row, col, num) ==>
              forall r, c :: 0 <= r < Size && 0 <= c < Size && SameBox(row, col, r, c) ==> g[r][c] != num
  {
    (forall i :: 0 <= i < Size ==> g[row][i] != num && g[i][col] != num) &&
    (forall i, j :: BoxStart(row) <= i < BoxStart(row) + 3 && BoxStart(col) <= j < BoxStart(col) + 3 ==>
       g[i][j] != num)
  }

  /** Legality stated through the peer relation: the target does not hold
      `num`, and neither does any cell sharing its row, column or box. */
  lemma {:induction false} LegalIffNoPeerHolds(g: Grid, row: int, col: int, num: int)
    requires IsGrid(g) && InRange(row) && InRange(col)
    ensures Legal(g, row, col, num) <==>
            g[row][col] != num &&
            forall r, c :: 0 <= r < Size && 0 <= c < Size && Peers(row, col, r, c) ==> g[r][c] != num
  {
    if Legal(g, row, col, num) {
      forall r, c | 0 <= r < Size && 0 <= c < Size && Peers(row, col, r, c)
        ensures g[r][c] != num
      {
        if r != row && c != col {
          BoxSpan(row, r);
          BoxSpan(col, c);
        }
      }
    }
    if g[row][col] != num && forall r, c :: 0 <= r < Size && 0 <= c < Size && Peers(row, col, r, c) ==> g[r][c] != num {
      forall i, j | BoxStart(row) <= i < BoxStart(row) + 3 && BoxStart(col) <= j < BoxStart(col) + 3
        ensures g[i][j] != num
      {
        BoxSpan(row, i);
        BoxSpan(col, j);
        assert (i == row && j == col) || Peers(row, col, i, j);
      }
      forall i | 0 <= i < Size
        ensures g[row][i] != num && g[i][col] != num
      {
        assert i == col || Peers(row, col, row, i);
        assert i == row || Peers(row, col, i, col);
      }
    }
  }

  /** The scan that decides legality: row and column together, then the
      box, returning at the first cell that holds `num`. */
  method IsValid(puzzle: array2<int>, row: int, col: int, num: int) returns (ok: bool)
    requires puzzle.Length0 == Size && puzzle.Length1 == Size
    requires InRange(row) && InRange(col)
    ensures ok <==> Legal(Snapshot(puzzle), row, col, num)
  {
    SnapshotCells(puzzle);
    for i := 0 to Size
      invariant forall k :: 0 <= k < i ==> puzzle[row, k] != num && puzzle[k, col] != num
    {
      if puzzle[row, i] == num || puzzle[i, col] == num {
        return false;
      }
    }
    var startRow := (row / 3) * 3;
    var startCol := (col / 3) * 3;
    assert startRow == BoxStart(row) && startCol == BoxStart(col);
    for i := startRow to startRow + 3
      invariant forall k, l :: startRow <= k < i && startCol <= l < startCol + 3 ==> puzzle[k, l] != num
    {
      for j := startCol to startCol + 3
        invariant forall k, l :: startRow <= k < i && startCol <= l < startCol + 3 ==> puzzle[k, l] != num
        invariant forall l :: startCol <= l < j ==> puzzle[i, l] != num
      {
        if puzzle[i, j] == num {
          return false;
        }
      }
    }
    return true;
  }

  /** Cell (r, c) holds a digit that another cell of its row repeats. */
  predicate RowClash(b: Grid, r: int, c: int)
    requires IsGrid(b) && InRange(r) && InRange(c)
  {
    exists i :: 0 <= i < Size && i != c && b[r][i] == b[r][c]
  }

  /** Cell (r, c) holds a digit that another cell of its column repeats. */
  predicate ColClash(b: Grid, r: int, c: int)
    requires IsGrid(b) && InRange(r) && InRange(c)
  {
    exists i :: 0 <= i < Size && i != r && b[i][c] == b[r][c]
  }

  /** The Check button colours (r, c) red: it is filled and clashes within
      its row or its column. Boxes are not looked at. */
  predicate Flagged(b: Grid, r: int, c: int)
    requires IsGrid(b) && InRange(r) && InRange(c)
  {
    b[r][c] != 0 && (RowClash(b, r, c) || ColClash(b, r, c))
  }

  /** Every cell the Check button colours red. */
  function Conflicts(b: Grid): (red: set<Cell>)
    requires IsGrid(b)
    ensures forall x :: x in red ==> InRange(x.row) && InRange(x.col) && b[x.row][x.col] != 0
  {
    set r, c | 0 <= r < Size && 0 <= c < Size && Flagged(b, r, c) :: Cell(r, c)
  }

  /** Cells visited by the scan before (row, col) in row-major order. */
  predicate Before(x: Cell, row: int, col: int) {
    x.row < row || (x.row == row && x.col < col)
  }

  /** The rule loop of the Check button: for each filled cell, compare it
      with every other cell of its row and of its column. */
  method CheckSudoku(board: Grid) returns (red: set<Cell>)
    requires IsGrid(board)
    ensures red == Conflicts(board)
  {
    red := {};
    for row := 0 to Size
      invariant forall x :: x in red <==>
        InRange(x.row) && InRange(x.col) && x.row < row && Flagged(board, x.row, x.col)
    {
      for col := 0 to Size
        invariant forall x :: x in red <==>
          InRange(x.row) && InRange(x.col) && Before(x, row, col) && Flagged(board, x.row, x.col)
      {
        var value := board[row][col];
        if value == 0 {
          continue;
        }
        ghost var seen := red;
        for i := 0 to Size
          invariant red - {Cell(row, col)} == seen
          invariant Cell(row, col) in red <==>
            exists k :: 0 <= k < i && ((k != col && board[row][k] == value) || (k != row && board[k][col] == value))
        {
          if i != col && board[row][i] == value {
            red := red + {Cell(row, col)};
          }
          if i != row && board[i][col] == value {
            red := red + {Cell(row, col)};
          }
        }
      }
    }
    forall x | x in Conflicts(board)
      ensures x in red
    {
    }
  }

  /** A flagged cell always has a partner: another filled cell of its row
      or column with the same digit, which is flagged as well. */
  lemma {:induction false} FlaggedInPairs(b: Grid, r: int, c: int)
    requires IsGrid(b) && InRange(r) && InRange(c)
    requires Cell(r, c) in Conflicts(b)
    ensures b[r][c] != 0
    ensures exists r2, c2 :: 0 <= r2 < Size && 0 <= c2 < Size && (r2 == r || c2 == c) && (r2 != r || c2 != c) &&
                             b[r2][c2] == b[r][c] && Cell(r2, c2) in Conflicts(b)
  {
    assert Flagged(b, r, c);
    if RowClash(b, r, c) {
      var i :| 0 <= i < Size && i != c && b[r][i] == b[r][c];
      assert RowClash(b, r, i) by { assert b[r][c] == b[r][i]; }
      assert Cell(r, i) in Conflicts(b);
    } else {
      var i :| 0 <= i < Size && i != r && b[i][c] == b[r][c];
      assert ColClash(b, i, c) by { assert b[r][c] == b[i][c]; }
      assert Cell(i, c) in Conflicts(b);
    }
  }

  /** Two filled cells of one row or one column holding the same digit are
      both flagged. */
  lemma {:induction false} EqualInLineBothFlagged(b: Grid, r1: int, c1: int, r2: int, c2: int)
    requires IsGrid(b) && InRange(r1) && InRange(c1) && InRange(r2) && InRange(c2)
    requires (r1 == r2 || c1 == c2) && (r1 != r2 || c1 != c2)
    requires b[r1][c1] != 0 && b[r1][c1] == b[r2][c2]
    ensures Cell(r1, c1) in Conflicts(b) && Cell(r2, c2) in Conflicts(b)
  {
    if r1 == r2 {
      assert RowClash(b, r1, c1) by { assert b[r1][c2] == b[r1][c1]; }
      assert RowClash(b, r2, c2) by { assert b[r2][c1] == b[r2][c2]; }
    } else {
      assert ColClash(b, r1, c1) by { assert b[r2][c1] == b[r1][c1]; }
      assert ColClash(b, r2, c2) by { assert b[r1][c2] == b[r2][c2]; }
    }
  }

  /** A board with no row, column or box duplicates passes the Check. */
  lemma {:induction false} ConsistentHasNoConflicts(g: Grid)
    requires IsGrid(g) && Consistent(g)
    ensures Conflicts(g) == {}
  {
    forall r, c | 0 <= r < Size && 0 <= c < Size && g[r][c] != 0
      ensures !RowClash(g, r, c) && !ColClash(g, r, c)
    {
      forall i | 0 <= i < Size
        ensures (i != c ==> g[r][i] != g[r][c]) && (i != r ==> g[i][c] != g[r][c])
      {
        assert !Clash(g, r, c, r, i) && !Clash(g, r, c, i, c);
      }
    }
  }

  /** Two equal digits in one box but in different rows and columns are
      not flagged, although neither could have been placed legally after
      the other. */
  lemma BoxOnlyDuplicateNotFlagged()
    ensures var b := Set(Set(EmptyGrid, 0, 0, 1), 1, 1, 1);
            Conflicts(b) == {} && !Legal(Set(EmptyGrid, 0, 0, 1), 1, 1, 1)
  {
    var b := Set(Set(EmptyGrid, 0, 0, 1), 1, 1, 1);
    EmptyGridShape();
    forall x | x in Conflicts(b)
      ensures false
    {
    }
    assert Set(EmptyGrid, 0, 0, 1)[0][0] == 1;
  }

  /** Two fives side by side in the top row: both are flagged, and a five
      is refused in the row, in the column, and also at (1, 1), whose box
      holds them. */
  lemma TwoFivesInTopRow()
    ensures var b := Set(Set(EmptyGrid, 0, 0, 5), 0, 1, 5);
            Conflicts(b) == {Cell(0, 0), Cell(0, 1)} &&
            !Legal(b, 0, 2, 5) && !Legal(b, 1, 0, 5) && !Legal(b, 1, 1, 5) && Legal(b, 3, 3, 5)
  {
    var b := Set(Set(EmptyGrid, 0, 0, 5), 0, 1, 5);
    EmptyGridShape();
    EqualInLineBothFlagged(b, 0, 0, 0, 1);
    forall x | x in Conflicts(b)
      ensures x == Cell(0, 0) || x == Cell(0, 1)
    {
      assert Flagged(b, x.row, x.col);
    }
    assert b[0][0] == 5;
  }

  /** A cell that already holds `num` never accepts it again: the row scan
      meets the target cell itself. */
  lemma {:induction false} OccupiedBySameRejects(g: Grid, row: int, col: int, num: int)
    requires IsGrid(g) && InRange(row) && InRange(col) && g[row][col] == num
    ensures !Legal(g, row, col, num)
  {
    assert g[row][col] == num;
  }
}
