/** The puzzle generator: starting from an empty board, 81 attempts, each
    drawing a random empty cell and a random digit and keeping the digit
    only if it is legal there. The first refused digit ends generation and
    leaves the board partly filled; nothing is retried.

    The random numbers are a supplied finite sequence of draws, each in
    [0, 8], consumed in the order the generator asks for them. */
module Generator {
  import opened Board
  import opened Validator

  /** The candidate digits; a draw in [0, 8] indexes them. */
  const Nums: seq<int> := [1, 2, 3, 4, 5, 6, 7, 8, 9]

  lemma NumsAreDigits()
    ensures |Nums| == Size
    ensures forall k :: 0 <= k < Size ==> Nums[k] == k + 1
  {
  }

  /** Every draw is a value the generator's `nextInt(9)` can return. */
  predicate ValidDraws(draws: seq<int>) {
    forall i :: 0 <= i < |draws| ==> 0 <= draws[i] < Size
  }

  /** How generation ended: all attempts placed a digit, or the digit `num`
      drawn for the empty cell (row, col) was refused. DrawsExhausted stands
      for a draw sequence too short to finish; a real random source never
      runs out. */
  datatype Outcome = Complete | Rejected(row: int, col: int, num: int) | DrawsExhausted

  /** Result of the cell search: the empty cell hit and the position of
      the next unused draw, or the draws ran out. */
  datatype Pick = Found(row: int, col: int, next: nat) | Exhausted

  /** Result of generation: how it ended, the board, and how many digits
      were placed. */
  datatype Fill = Fill(outcome: Outcome, grid: Grid, placed: nat)

  /** The pair of draws at j names a filled cell, so the search draws again. */
  predicate Redraw(g: Grid, draws: seq<int>, j: int)
    requires IsGrid(g) && ValidDraws(draws) && 0 <= j && j + 1 < |draws|
  {
    g[draws[j]][draws[j + 1]] != 0
  }

  /** The cell search: take draws two at a time as (row, col) until one
      names an empty cell. */
  function PickEmpty(g: Grid, draws: seq<int>, pos: nat): (p: Pick)
    requires IsGrid(g) && ValidDraws(draws) && pos <= |draws|
    ensures p.Found? ==> InRange(p.row) && InRange(p.col) && g[p.row][p.col] == 0 && pos + 2 <= p.next <= |draws|
    decreases |draws| - pos
  {
    if |draws| - pos < 2 then Exhausted
    else if g[draws[pos]][draws[pos + 1]] == 0 then Found(draws[pos], draws[pos + 1], pos + 2)
    else PickEmpty(g, draws, pos + 2)
  }

  /** The search stops at the first pair naming an empty cell: every pair
      before it names a filled cell, and when the draws run out every pair
      did. */
  lemma {:induction false} PickEmptyFirstHit(g: Grid, draws: seq<int>, pos: nat)
    requires IsGrid(g) && ValidDraws(draws) && pos <= |draws|
    ensures var p := PickEmpty(g, draws, pos);
            (p.Found? ==> (p.next - pos) % 2 == 0 && p.row == draws[p.next - 2] && p.col == draws[p.next - 1]) &&
            forall j :: pos <= j < (if p.Found? then p.next - 2 else |draws| - 1) && (j - pos) % 2 == 0 ==>
              Redraw(g, draws, j)
    decreases |draws| - pos
  {
    if |draws| - pos >= 2 && g[draws[pos]][draws[pos + 1]] != 0 {
      PickEmptyFirstHit(g, draws, pos + 2);
    }
  }

  /** Result of one attempt: the digit placed and the next unused draw,
      the digit refused, or the draws ran out. */
  datatype Attempt =
    | Placed(row: int, col: int, num: int, next: nat)
    | Refused(row: int, col: int, num: int)
    | OutOfDraws

  /** One attempt: find an empty cell, draw a digit, keep it only if legal.
      The drawn digit is `Nums[d]` for draw d, that is d + 1. */
  function TryPlace(g: Grid, draws: seq<int>, pos: nat): (a: Attempt)
    requires IsGrid(g) && ValidDraws(draws) && pos <= |draws|
    ensures !a.OutOfDraws? ==> InRange(a.row) && InRange(a.col) && g[a.row][a.col] == 0 && 1 <= a.num <= 9
    ensures a.Placed? ==> Legal(g, a.row, a.col, a.num) && pos + 3 <= a.next <= |draws|
    ensures a.Refused? ==> !Legal(g, a.row, a.col, a.num)
  {
    match PickEmpty(g, draws, pos)
    case Exhausted => OutOfDraws
    case Found(row, col, next) =>
      if next == |draws| then OutOfDraws
      else
        var num := draws[next] + 1;
        if Legal(g, row, col, num) then Placed(row, col, num, next + 1) else Refused(row, col, num)
  }

  /** Generation from board g with `left` attempts to go, reading draws
      from position pos on. */
  function FillFrom(g: Grid, draws: seq<int>, pos: nat, left: nat): (f: Fill)
    requires IsGrid(g) && ValidDraws(draws) && pos <= |draws|
    ensures IsGrid(f.grid) && f.placed <= left
    decreases left
  {
    if left == 0 then Fill(Complete, g, 0)
    else match TryPlace(g, draws, pos)
      case OutOfDraws => Fill(DrawsExhausted, g, 0)
      case Refused(row, col, num) => Fill(Rejected(row, col, num), g, 0)
      case Placed(row, col, num, next) =>
        var f := FillFrom(Set(g, row, col, num), draws, next, left - 1);
        f.(placed := f.placed + 1)
  }

  /** Generation of a new puzzle: 81 attempts from the empty board. */
  function Generate(draws: seq<int>): (f: Fill)
    requires ValidDraws(draws)
    ensures IsGrid(f.grid) && f.placed <= CellCount
  {
    EmptyGridShape();
    FillFrom(EmptyGrid, draws, 0, CellCount)
  }

  /** How generation ends and the board it leaves, without the count of
      placed digits. */
  function Ending(f: Fill): (Outcome, Grid) {
    (f.outcome, f.grid)
  }

  /** One attempt of generation: running out of draws or a refused digit
      ends it on the current board; a placed digit hands the rest to the
      remaining attempts on the updated board and counts one more. */
  lemma {:induction false} FillFromStep(g: Grid, draws: seq<int>, pos: nat, left: nat)
    requires IsGrid(g) && ValidDraws(draws) && pos <= |draws| && left > 0
    ensures var a := TryPlace(g, draws, pos);
            var f := FillFrom(g, draws, pos, left);
            (a.OutOfDraws? ==> f == Fill(DrawsExhausted, g, 0)) &&
            (a.Refused? ==> f == Fill(Rejected(a.row, a.col, a.num), g, 0)) &&
            (a.Placed? ==> var rest := FillFrom(Set(g, a.row, a.col, a.num), draws, a.next, left - 1);
                           f == rest.(placed := rest.placed + 1))
  {
  }

  /** h is g with some empty cells filled with digits 1..9; every filled
      cell of g keeps its digit. */
  predicate Extends(g: Grid, h: Grid)
    requires IsGrid(g) && IsGrid(h)
  {
    forall r, c :: 0 <= r < Size && 0 <= c < Size ==>
      h[r][c] == g[r][c] || (g[r][c] == 0 && 1 <= h[r][c] <= 9)
  }

  lemma {:induction false} ExtendsTrans(g: Grid, h: Grid, k: Grid)
    requires IsGrid(g) && IsGrid(h) && IsGrid(k) && Extends(g, h) && Extends(h, k)
    ensures Extends(g, k)
  {
  }

  lemma {:induction false} SetExtends(g: Grid, row: int, col: int, num: int)
    requires IsGrid(g) && InRange(row) && InRange(col) && g[row][col] == 0 && 1 <= num <= 9
    ensures Extends(g, Set(g, row, col, num))
  {
  }

  /** Generation writes only cells that were empty, and only digits 1..9;
      every filled cell keeps its digit. */
  lemma {:induction false} FillWritesOnlyEmptyCells(g: Grid, draws: seq<int>, pos: nat, left: nat)
    requires IsGrid(g) && ValidDraws(draws) && pos <= |draws|
    ensures Extends(g, FillFrom(g, draws, pos, left).grid)
    decreases left
  {
    if left > 0 {
      match TryPlace(g, draws, pos)
      case OutOfDraws =>
      case Refused(_, _, _) =>
      case Placed(row, col, num, next) =>
        var h := Set(g, row, col, num);
        FillWritesOnlyEmptyCells(h, draws, next, left - 1);
        SetExtends(g, row, col, num);
        ExtendsTrans(g, h, FillFrom(h, draws, next, left - 1).grid);
    }
  }

  /** Placing a legal digit keeps the board free of duplicates among peers. */
  lemma {:induction false} PlaceLegalKeepsConsistent(g: Grid, row: int, col: int, num: int)
    requires IsGrid(g) && InRange(row) && InRange(col)
    requires Consistent(g) && Legal(g, row, col, num)
    ensures Consistent(Set(g, row, col, num))
  {
    var h := Set(g, row, col, num);
    LegalIffNoPeerHolds(g, row, col, num);
    forall r1, c1, r2, c2 | 0 <= r1 < Size && 0 <= c1 < Size && 0 <= r2 < Size && 0 <= c2 < Size
      ensures !Clash(h, r1, c1, r2, c2)
    {
      assert !Clash(g, r1, c1, r2, c2);
      if !Peers(r1, c1, r2, c2) {
      } else if r1 == row && c1 == col {
        assert h[r2][c2] == g[r2][c2];
      } else if r2 == row && c2 == col {
        assert Peers(row, col, r1, c1);
        assert h[r1][c1] == g[r1][c1];
      }
    }
  }

  /** Every successful placement keeps the board free of duplicates, so
      generation returns a duplicate-free board, complete or not. */
  lemma {:induction false} FillKeepsConsistent(g: Grid, draws: seq<int>, pos: nat, left: nat)
    requires IsGrid(g) && ValidDraws(draws) && pos <= |draws| && Consistent(g)
    ensures Consistent(FillFrom(g, draws, pos, left).grid)
    decreases left
  {
    if left > 0 {
      match TryPlace(g, draws, pos)
      case OutOfDraws =>
      case Refused(_, _, _) =>
      case Placed(row, col, num, next) =>
        PlaceLegalKeepsConsistent(g, row, col, num);
        FillKeepsConsistent(Set(g, row, col, num), draws, next, left - 1);
    }
  }

  /** Each placement fills exactly one empty cell; generation is complete
      exactly when every attempt placed a digit. */
  lemma {:induction false} FillCounts(g: Grid, draws: seq<int>, pos: nat, left: nat)
    requires IsGrid(g) && ValidDraws(draws) && pos <= |draws|
    ensures var f := FillFrom(g, draws, pos, left);
            (f.outcome == Complete <==> f.placed == left) &&
            f.placed <= EmptyCount(g, CellCount) &&
            EmptyCount(f.grid, CellCount) == EmptyCount(g, CellCount) - f.placed
    decreases left
  {
    if left > 0 {
      match TryPlace(g, draws, pos)
      case OutOfDraws =>
      case Refused(_, _, _) =>
      case Placed(row, col, num, next) =>
        EmptyCountAfterFill(g, row, col, num, CellCount);
        FillCounts(Set(g, row, col, num), draws, next, left - 1);
    }
  }

  /** The attempt the generator gives up on: an empty cell and a digit
      1..9 that may not go there. */
  predicate Refuses(g: Grid, r: int, c: int, d: int)
    requires IsGrid(g)
  {
    InRange(r) && InRange(c) && 1 <= d <= 9 && g[r][c] == 0 && !Legal(g, r, c, d)
  }

  /** A refused attempt ends generation on the board as it stood, which
      still refuses that attempt. */
  lemma {:induction false} FillStopsAtRefusal(g: Grid, draws: seq<int>, pos: nat, left: nat)
    requires IsGrid(g) && ValidDraws(draws) && pos <= |draws|
    ensures var f := FillFrom(g, draws, pos, left);
            f.outcome.Rejected? ==> f.placed < left && Refuses(f.grid, f.outcome.row, f.outcome.col, f.outcome.num)
    decreases left
  {
    if left > 0 {
      match TryPlace(g, draws, pos)
      case OutOfDraws =>
      case Refused(row, col, num) =>
        assert Refuses(g, row, col, num);
      case Placed(row, col, num, next) =>
        FillStopsAtRefusal(Set(g, row, col, num), draws, next, left - 1);
    }
  }

  /** What a new game starts from: digits 1..9 or empty cells, no two equal
      digits among peers, so the Check button flags nothing; one filled cell
      per placement; and a complete result has no empty cell. */
  lemma {:induction false} GenerateProperties(draws: seq<int>)
    requires ValidDraws(draws)
    ensures var f := Generate(draws);
            IsGrid(f.grid) && HoldsDigits(f.grid) && Consistent(f.grid) && Conflicts(f.grid) == {} &&
            f.placed <= CellCount &&
            (f.outcome == Complete <==> f.placed == CellCount) &&
            EmptyCount(f.grid, CellCount) == CellCount - f.placed &&
            (f.outcome == Complete ==> forall r, c :: 0 <= r < Size && 0 <= c < Size ==> f.grid[r][c] != 0)
  {
    var f := Generate(draws);
    EmptyGridShape();
    EmptyCountOfEmpty(CellCount);
    FillWritesOnlyEmptyCells(EmptyGrid, draws, 0, CellCount);
    FillKeepsConsistent(EmptyGrid, draws, 0, CellCount);
    FillCounts(EmptyGrid, draws, 0, CellCount);
    ConsistentHasNoConflicts(f.grid);
    if f.outcome == Complete {
      FullWhenNoEmpty(f.grid);
    }
  }

  /** A mostly empty board is an ordinary result: a 1 at (0, 0), then a 1
      drawn for (0, 1) is refused and generation stops after one placement. */
  lemma {:induction false} GenerateCanStopEarly(draws: seq<int>)
    requires draws == [0, 0, 0, 0, 1, 0]
    ensures ValidDraws(draws)
    ensures Generate(draws) == Fill(Rejected(0, 1, 1), Set(EmptyGrid, 0, 0, 1), 1)
  {
    EmptyGridShape();
    var g1 := Set(EmptyGrid, 0, 0, 1);
    assert PickEmpty(EmptyGrid, draws, 0) == Found(0, 0, 2);
    assert Legal(EmptyGrid, 0, 0, 1);
    assert TryPlace(EmptyGrid, draws, 0) == Placed(0, 0, 1, 3);
    FillFromStep(EmptyGrid, draws, 0, CellCount);
    assert PickEmpty(g1, draws, 3) == Found(0, 1, 5);
    assert !Legal(g1, 0, 1, 1) by { assert g1[0][0] == 1; }
    assert TryPlace(g1, draws, 3) == Refused(0, 1, 1);
    FillFromStep(g1, draws, 3, CellCount - 1);
  }

  /** The redraw loop: read (row, col) pairs until one names an empty cell. */
  method FindEmptyCell(puzzle: array2<int>, draws: seq<int>, pos: nat)
    returns (found: bool, row: int, col: int, next: nat)
    requires puzzle.Length0 == Size && puzzle.Length1 == Size
    requires ValidDraws(draws) && pos <= |draws|
    ensures found ==> PickEmpty(Snapshot(puzzle), draws, pos) == Found(row, col, next)
    ensures !found ==> PickEmpty(Snapshot(puzzle), draws, pos) == Exhausted
  {
    ghost var g := Snapshot(puzzle);
    SnapshotCells(puzzle);
    next := pos;
    row, col := 0, 0;
    while true
      invariant pos <= next <= |draws|
      invariant PickEmpty(g, draws, next) == PickEmpty(g, draws, pos)
      decreases |draws| - next
    {
      if |draws| - next < 2 {
        return false, row, col, next;
      }
      row, col := draws[next], draws[next + 1];
      next := next + 2;
      if puzzle[row, col] == 0 {
        return true, row, col, next;
      }
    }
  }

  /** One attempt of the generator loop: find an empty cell, draw a digit,
      and write it only if the row, column and box scans allow it. */
  method AttemptOnce(puzzle: array2<int>, draws: seq<int>, pos: nat) returns (a: Attempt)
    requires puzzle.Length0 == Size && puzzle.Length1 == Size
    requires ValidDraws(draws) && pos <= |draws|
    modifies puzzle
    ensures a == TryPlace(old(Snapshot(puzzle)), draws, pos)
    ensures Snapshot(puzzle) ==
            if a.Placed? then Set(old(Snapshot(puzzle)), a.row, a.col, a.num) else old(Snapshot(puzzle))
  {
    ghost var g := Snapshot(puzzle);
    SnapshotCells(puzzle);
    var found, row, col, next := FindEmptyCell(puzzle, draws, pos);
    if !found || next == |draws| {
      return OutOfDraws;
    }
    NumsAreDigits();
    var num := Nums[draws[next]];
    var ok := IsValid(puzzle, row, col, num);
    if ok {
      puzzle[row, col] := num;
      SnapshotIs(puzzle, Set(g, row, col, num));
      return Placed(row, col, num, next + 1);
    }
    return Refused(row, col, num);
  }

  /** The generator loop, run in place on an all-zero 9x9 array: the loops
      over i and j make the 81 attempts; the first refused digit returns at
      once. */
  method FillSudoku(puzzle: array2<int>, draws: seq<int>) returns (outcome: Outcome)
    requires puzzle.Length0 == Size && puzzle.Length1 == Size
    requires Snapshot(puzzle) == EmptyGrid
    requires ValidDraws(draws)
    modifies puzzle
    ensures outcome == Generate(draws).outcome && Snapshot(puzzle) == Generate(draws).grid
  {
    ghost var goal := Generate(draws);
    ghost var g := EmptyGrid;
    ghost var left: nat := CellCount;
    var pos := 0;
    EmptyGridShape();
    EmptyCountOfEmpty(CellCount);
    for i := 0 to 9
      invariant pos <= |draws| && left == 81 - 9 * i
      invariant IsGrid(g) && Snapshot(puzzle) == g && EmptyCount(g, CellCount) == left
      invariant Ending(FillFrom(g, draws, pos, left)) == Ending(goal)
    {
      for j := 0 to 9
        invariant pos <= |draws| && left == 81 - 9 * i - j
        invariant IsGrid(g) && Snapshot(puzzle) == g && EmptyCount(g, CellCount) == left
        invariant Ending(FillFrom(g, draws, pos, left)) == Ending(goal)
      {
        // Before each attempt exactly `left` cells are empty, so the redraw
        // loop always has an empty cell to find; only the draws decide when
        // it stops.
        EmptyCellForAttempt(g, left);
        FillFromStep(g, draws, pos, left);
        var a := AttemptOnce(puzzle, draws, pos);
        match a
        case OutOfDraws =>
          return DrawsExhausted;
        case Refused(row, col, num) =>
          return Rejected(row, col, num);
        case Placed(row, col, num, next) =>
          EmptyCountAfterFill(g, row, col, num, CellCount);
          g := Set(g, row, col, num);
          pos := next;
          left := left - 1;
      }
    }
    return Complete;
  }

  /** A new game's board: a fresh all-zero array, filled by the generator
      whose own verdict is ignored. */
  method GenerateValidRandomSudoku(draws: seq<int>) returns (puzzle: array2<int>)
    requires ValidDraws(draws)
    ensures fresh(puzzle) && puzzle.Length0 == Size && puzzle.Length1 == Size
    ensures Snapshot(puzzle) == Generate(draws).grid
    ensures HoldsDigits(Snapshot(puzzle)) && Consistent(Snapshot(puzzle))
  {
    puzzle := new int[Size, Size]((_, _) => 0);
    EmptyGridShape();
    SnapshotIs(puzzle, EmptyGrid);
    var _ := FillSudoku(puzzle, draws);
    GenerateProperties(draws);
  }
}
