/** Keyboard navigation over the 9x9 grid: the arrow keys move the focused
    cell one step with wrap-around, and Enter in a cell moves focus to the
    next cell in reading order, wrapping from the last cell to the first. */
module Cursor {
  import opened Board

  /** The key codes the navigation handler distinguishes; any other key
      leaves the position unchanged. */
  datatype Key = Left | Right | Up | Down | Other

  predicate OnBoard(p: Cell) {
    InRange(p.row) && InRange(p.col)
  }

  /** Position of a cell in reading order: 0 for the top-left cell, 80 for
      the bottom-right one. */
  function RowMajor(p: Cell): int {
    p.row * 9 + p.col
  }

  /** The cell with reading-order position k. */
  function CellAt(k: int): (p: Cell)
    requires 0 <= k < CellCount
    ensures OnBoard(p) && RowMajor(p) == k
  {
    Cell(k / 9, k % 9)
  }

  /** Distinct cells have distinct reading-order positions. */
  lemma {:induction false} RowMajorInjective(p: Cell, q: Cell)
    requires OnBoard(p) && OnBoard(q) && RowMajor(p) == RowMajor(q)
    ensures p == q
  {
  }

  /** Reading-order positions of on-board cells run from 0 to 80. */
  lemma {:induction false} RowMajorBounds(p: Cell)
    requires OnBoard(p)
    ensures 0 <= RowMajor(p) < CellCount
  {
  }

  /** Where one key press moves focus from p: the arrows step to the
      neighbouring cell, wrapping round at the edges; other keys stay. */
  function ArrowTarget(key: Key, p: Cell): (q: Cell)
    requires OnBoard(p)
    ensures OnBoard(q)
    ensures key.Left? ==> q.row == p.row && q.col == (if p.col == 0 then Size - 1 else p.col - 1)
    ensures key.Right? ==> q.row == p.row && q.col == (if p.col == Size - 1 then 0 else p.col + 1)
    ensures key.Up? ==> q.col == p.col && q.row == (if p.row == 0 then Size - 1 else p.row - 1)
    ensures key.Down? ==> q.col == p.col && q.row == (if p.row == Size - 1 then 0 else p.row + 1)
    ensures key.Other? ==> q == p
  {
    match key
    case Left => Cell(p.row, (p.col - 1 + 9) % 9)
    case Right => Cell(p.row, (p.col + 1) % 9)
    case Up => Cell((p.row - 1 + 9) % 9, p.col)
    case Down => Cell((p.row + 1) % 9, p.col)
    case Other => p
  }

  /** Left undoes Right and Up undoes Down, and the other way round. */
  lemma {:induction false} OppositeArrowsCancel(p: Cell)
    requires OnBoard(p)
    ensures ArrowTarget(Left, ArrowTarget(Right, p)) == p
    ensures ArrowTarget(Right, ArrowTarget(Left, p)) == p
    ensures ArrowTarget(Up, ArrowTarget(Down, p)) == p
    ensures ArrowTarget(Down, ArrowTarget(Up, p)) == p
  {
  }

  /** Focus after pressing `key` n times, starting at p. */
  function Presses(key: Key, n: nat, p: Cell): (q: Cell)
    requires OnBoard(p)
    ensures OnBoard(q)
  {
    if n == 0 then p else ArrowTarget(key, Presses(key, n - 1, p))
  }

  /** Where n presses of one arrow lead from p: n steps along the row or
      column, counted modulo 9; the other coordinate never changes. */
  function Shifted(key: Key, n: int, p: Cell): Cell {
    match key
    case Left => Cell(p.row, (p.col - n) % 9)
    case Right => Cell(p.row, (p.col + n) % 9)
    case Up => Cell((p.row - n) % 9, p.col)
    case Down => Cell((p.row + n) % 9, p.col)
    case Other => p
  }

  /** One more press moves one step further along the cycle. */
  lemma {:induction false} ShiftedStep(key: Key, n: int, p: Cell)
    requires OnBoard(p)
    ensures OnBoard(Shifted(key, n - 1, p))
    ensures ArrowTarget(key, Shifted(key, n - 1, p)) == Shifted(key, n, p)
  {
    match key
    case Left => StepDown(p.col, n);
    case Right => StepUp(p.col, n);
    case Up => StepDown(p.row, n);
    case Down => StepUp(p.row, n);
    case Other =>
  }

  /** n presses of one arrow move n steps along the row or column, counted
      modulo 9; the other coordinate never changes. */
  lemma {:induction false} PressesShift(key: Key, n: nat, p: Cell)
    requires OnBoard(p)
    ensures Presses(key, n, p) == Shifted(key, n, p)
  {
    if n > 0 {
      PressesShift(key, n - 1, p);
      ShiftedStep(key, n, p);
    } else {
      assert p.row % 9 == p.row && p.col % 9 == p.col;
    }
  }

  /** One more step forward on the cycle 0..8. */
  lemma {:induction false} StepUp(x: int, n: int)
    ensures (if (x + (n - 1)) % 9 == 8 then 0 else (x + (n - 1)) % 9 + 1) == (x + n) % 9
  {
  }

  /** One more step backward on the cycle 0..8. */
  lemma {:induction false} StepDown(x: int, n: int)
    ensures (if (x - (n - 1)) % 9 == 0 then 8 else (x - (n - 1)) % 9 - 1) == (x - n) % 9
  {
  }

  /** Nine presses of any key bring focus back where it started. */
  lemma {:induction false} NinePressesReturn(key: Key, p: Cell)
    requires OnBoard(p)
    ensures Presses(key, 9, p) == p
  {
    PressesShift(key, 9, p);
    assert (p.row - 9) % 9 == p.row && (p.row + 9) % 9 == p.row;
    assert (p.col - 9) % 9 == p.col && (p.col + 9) % 9 == p.col;
  }

  /** The cell after p in reading order: the next column, and at the end
      of a row the first column of the next row; after the bottom-right
      cell comes the top-left one. */
  function NextCell(p: Cell): (q: Cell)
    requires OnBoard(p)
    ensures OnBoard(q)
    ensures RowMajor(q) == if RowMajor(p) == 80 then 0 else RowMajor(p) + 1
  {
    var col := (p.col + 1) % 9;
    assert col == if p.col == 8 then 0 else p.col + 1;
    var row := if col == 0 then (p.row + 1) % 9 else p.row;
    assert row == if p.col < 8 then p.row else if p.row == 8 then 0 else p.row + 1;
    Cell(row, col)
  }

  /** Different cells have different successors. */
  lemma {:induction false} NextCellInjective(p: Cell, q: Cell)
    requires OnBoard(p) && OnBoard(q) && NextCell(p) == NextCell(q)
    ensures p == q
  {
    RowMajorBounds(p);
    RowMajorBounds(q);
    RowMajorInjective(p, q);
  }

  /** Every cell is the successor of some cell, so repeated presses of
      Enter run through all 81 cells in reading order and start over. */
  lemma {:induction false} NextCellOnto(q: Cell)
    requires OnBoard(q)
    ensures exists p :: OnBoard(p) && NextCell(p) == q
  {
    RowMajorBounds(q);
    var p := CellAt(if RowMajor(q) == 0 then CellCount - 1 else RowMajor(q) - 1);
    RowMajorInjective(NextCell(p), q);
  }

  /** Enter in the bottom-right cell moves focus to the top-left one, and
      at the end of any other row to the start of the next. */
  lemma {:induction false} NextCellWraps(r: int)
    requires 0 <= r < Size
    ensures NextCell(Cell(r, Size - 1)) == if r == Size - 1 then Cell(0, 0) else Cell(r + 1, 0)
  {
  }

  /** The focused cell of the game window. */
  class Focus {
    var currentRow: int
    var currentCol: int

    ghost predicate Valid()
      reads this
    {
      InRange(currentRow) && InRange(currentCol)
    }

    /** A new window focuses the top-left cell. */
    constructor ()
      ensures Valid() && currentRow == 0 && currentCol == 0
    {
      currentRow := 0;
      currentCol := 0;
    }

    /** An arrow key pressed while (row, col) has focus. */
    method HandleArrowKeys(key: Key, row: int, col: int)
      requires InRange(row) && InRange(col)
      modifies this
      ensures Valid()
      ensures Cell(currentRow, currentCol) == ArrowTarget(key, Cell(row, col))
    {
      var r, c := row, col;
      match key {
        case Left =>
          c := (c - 1 + 9) % 9;
        case Right =>
          c := (c + 1) % 9;
        case Up =>
          r := (r - 1 + 9) % 9;
        case Down =>
          r := (r + 1) % 9;
        case Other =>
      }
      currentRow := r;
      currentCol := c;
    }

    /** A key pressed in the window: the arrow handler is called with the
        focused cell. */
    method KeyPressed(key: Key)
      requires Valid()
      modifies this
      ensures Valid()
      ensures Cell(currentRow, currentCol) == ArrowTarget(key, old(Cell(currentRow, currentCol)))
    {
      HandleArrowKeys(key, currentRow, currentCol);
    }

    /** Enter pressed in a cell: focus moves on from the focused cell. */
    method EnterPressed()
      requires Valid()
      modifies this
      ensures Valid()
      ensures Cell(currentRow, currentCol) == NextCell(old(Cell(currentRow, currentCol)))
    {
      MoveFocusToNextCell(currentRow, currentCol);
    }

    /** Enter pressed in cell (row, col). */
    method MoveFocusToNextCell(row: int, col: int)
      requires InRange(row) && InRange(col)
      modifies this
      ensures Valid()
      ensures Cell(currentRow, currentCol) == NextCell(Cell(row, col))
    {
      var r, c := row, col;
      c := (c + 1) % 9;
      assert c == if col == 8 then 0 else col + 1;
      if c == 0 {
        r := (r + 1) % 9;
        assert r == if row == 8 then 0 else row + 1;
      }
      currentRow := r;
      currentCol := c;
    }
  }
}
