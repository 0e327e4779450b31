# Sudoku game engine, modelled in Dafny

This project models the puzzle engine of `SudokuGameFX.java`, a 9x9 Sudoku
window. The engine has four parts:

- **Placement check** (`isValid`): may digit `num` go at `(row, col)`?
  It scans the row and the column first, then the 3x3 box, and it stops
  at the first cell that holds `num`. The scans include the target cell
  itself.
- **Generator** (`fillSudoku`, `generateValidRandomSudoku`): starts from an
  all-zero board and makes 81 attempts. Each attempt redraws `(row, col)`
  until the cell is empty, then draws a digit. A legal digit is written;
  the first illegal one ends generation with `false` and leaves a
  partly filled board. The caller ignores that verdict.
- **Check button** (`checkSudoku`): colours red every filled cell whose
  digit appears again in its row or its column. Boxes are not checked.
- **Keyboard focus** (`handleArrowKeys`, `moveFocusToNextCell`): the
  arrows move one step and wrap round at the edges. Enter moves to the
  next cell in reading order, and after the last cell comes the first.

The modules:

- `Board` holds the 9x9 grid as a value (`seq<seq<int>>`), boxes, peers
  and duplicate-freedom. `Snapshot` reads a Java `int[][]` (an
  `array2<int>`) as such a value.
- `Validator` holds the placement check and the Check button. Each is a
  specification (`Legal`, `Conflicts`) plus a method with the source's
  loops, proved equal to it.
- `Generator` models `java.util.Random` as a supplied sequence of draws
  in [0, 8]. It has a functional reference (`FillFrom`, `Generate`) and
  the in-place methods on the array (`AttemptOnce`, `FillSudoku`), proved
  to produce the reference result.
- `Cursor` holds the focus movement. It has pure target functions and a
  class `Focus` with the fields `currentRow` and `currentCol`.

Two behaviours of the code that are easy to misread:

- The row and column scans of `isValid` include the target cell, so a
  cell already holding `num` refuses `num` (`OccupiedBySameRejects`).
- With fives at (0, 0) and (0, 1), a five at (1, 1) is refused, because
  the box scan sees them (`TwoFivesInTopRow`).

## Model

| member | source | states |
|---|---|---|
| Validator.Legal | SudokuGameFX.java:99-117 | the meaning of the placement check: `num` is absent from the row, the column (both including the target) and the 3x3 box; a legal digit is absent from every cell sharing the target's box origins |
| Validator.IsValid | SudokuGameFX.java:99-117 | returns true exactly when `num` is absent from the row, the column and the 3x3 box of (row, col) on the array's contents |
| Validator.LegalIffNoPeerHolds | SudokuGameFX.java:99-117 | legality is equivalent to: the target does not hold `num` and no cell sharing its row, column or box holds it |
| Validator.OccupiedBySameRejects | SudokuGameFX.java:101-105 | a cell already holding `num` is refused `num`, because the row scan meets the target cell |
| Board.BoxStart | SudokuGameFX.java:107-108 | the box origin `(i / 3) * 3` is at most i and covers i within its three rows or columns |
| Board.BoxStartAligned | SudokuGameFX.java:107-108 | box origins are 0, 3 or 6 |
| Board.BoxSpan | SudokuGameFX.java:109-110 | j lies in the three-wide band scanned for i exactly when i and j have the same box origin |
| Validator.Conflicts | SudokuGameFX.java:184-199 | the cells the rule loop colours red: filled cells repeated in their row or column; every such cell is on the board and non-zero |
| Validator.CheckSudoku | SudokuGameFX.java:184-199 | the set of cells coloured red is exactly the set of filled cells that share their digit with another cell of their row or column |
| Validator.FlaggedInPairs | SudokuGameFX.java:191-199 | every red cell is filled, and another cell of its row or column holds the same digit and is red too |
| Validator.EqualInLineBothFlagged | SudokuGameFX.java:191-199 | two filled cells of one row or column with the same digit are both coloured red |
| Validator.ConsistentHasNoConflicts | SudokuGameFX.java:184-199 | a board with no duplicate among peers has no red cell |
| Validator.BoxOnlyDuplicateNotFlagged | SudokuGameFX.java:184-199 | two equal digits in one box, in different rows and columns, are not coloured, though the placement check refuses the second |
| Validator.TwoFivesInTopRow | SudokuGameFX.java:99-117 | with fives at (0, 0) and (0, 1) exactly those two are red; a five is refused at (0, 2), (1, 0) and (1, 1) and allowed at (3, 3) |
| Board.Set | SudokuGameFX.java:90 | writing one cell changes that cell to the value and leaves every other cell as it was |
| Board.EmptyCountOfEmpty | SudokuGameFX.java:73 | the fresh all-zero board has 81 empty cells |
| Board.EmptyCountAfterFill | SudokuGameFX.java:90 | writing a non-zero digit into an empty cell lowers the count of empty cells by one |
| Board.FullWhenNoEmpty | SudokuGameFX.java:82-96 | a board whose count of empty cells is zero has a digit in every cell |
| Board.EmptyCellExists | SudokuGameFX.java:84-87 | a positive count of empty cells among the first k cells means one of those cells is empty |
| Board.EmptyCellForAttempt | SudokuGameFX.java:82-87 | a board with as many empty cells as attempts left, one or more, has an empty cell; `FillSudoku` keeps that count before every attempt, so the redraw loop always has a cell to find |
| Generator.PickEmpty | SudokuGameFX.java:84-87 | a found cell is on the board and empty, and the search used at least one pair of draws |
| Generator.PickEmptyFirstHit | SudokuGameFX.java:84-87 | the found cell is the last pair read; every pair read before it names a filled cell; when the draws run out, every pair named a filled cell |
| Generator.FindEmptyCell | SudokuGameFX.java:84-87 | the do-while redraw loop on the array finds the same cell and draw position as the search `PickEmpty`, or reports that the draws ran out |
| Generator.TryPlace | SudokuGameFX.java:84-93 | an attempt targets an empty cell with a digit 1..9; a placed digit is legal there and a refused one is not |
| Generator.AttemptOnce | SudokuGameFX.java:84-93 | one attempt on the array returns the attempt `TryPlace` describes, and the array then holds the old board with the placed digit written, or the old board unchanged |
| Generator.FillFrom | SudokuGameFX.java:82-96 | the reference generation from a board with a number of attempts left: stop on running out of draws or on a refused digit, otherwise write the digit and go on; the result is a 9x9 board and at most one placement per attempt |
| Generator.Generate | SudokuGameFX.java:72-97 | the reference generation of a new puzzle: 81 attempts from the all-zero board, giving a 9x9 board and at most 81 placements |
| Generator.FillFromStep | SudokuGameFX.java:82-93 | running out of draws or a refused digit ends generation on the current board; a placed digit leaves the rest to the remaining attempts and counts one more |
| Generator.SetExtends | SudokuGameFX.java:90 | writing a digit 1..9 into an empty cell only fills that cell |
| Generator.FillWritesOnlyEmptyCells | SudokuGameFX.java:84-90 | generation writes only cells that were empty, and only digits 1..9 |
| Generator.PlaceLegalKeepsConsistent | SudokuGameFX.java:89-90 | writing a legal digit into a board without duplicates among peers keeps it so |
| Generator.FillKeepsConsistent | SudokuGameFX.java:82-96 | the board generation returns has no duplicates among peers, whether complete or not |
| Generator.FillCounts | SudokuGameFX.java:82-96 | generation completes exactly when every attempt placed a digit; each placement fills one empty cell |
| Generator.FillStopsAtRefusal | SudokuGameFX.java:88-93 | a rejected generation made fewer placements than attempts, and the board it leaves still refuses the rejected digit at that empty cell |
| Generator.GenerateProperties | SudokuGameFX.java:72-97 | a new board holds only 0 or 1..9, has no duplicates among peers and so no red cell on Check, has 81 minus placed empty cells, and is full when generation completed |
| Generator.GenerateCanStopEarly | SudokuGameFX.java:84-93 | draws 0,0,0 place a 1 at (0, 0); then a 1 drawn for (0, 1) is refused and generation stops after one placement |
| Generator.FillSudoku | SudokuGameFX.java:79-97 | the nested loops on the array end with the outcome and the board of the reference generation; before each attempt as many cells are empty as attempts are left, so an empty cell always exists |
| Generator.GenerateValidRandomSudoku | SudokuGameFX.java:72-77 | a fresh 9x9 array holding the generated board, with digits 0..9 and no duplicates among peers |
| Cursor.ArrowTarget | SudokuGameFX.java:119-134 | Left, Right, Up and Down step one cell and wrap from the first to the last column or row and back; any other key stays |
| Cursor.OppositeArrowsCancel | SudokuGameFX.java:121-133 | Left undoes Right and Up undoes Down, both ways round |
| Cursor.ShiftedStep | SudokuGameFX.java:121-133 | one press of an arrow moves one step further along the cycle of 9 |
| Cursor.PressesShift | SudokuGameFX.java:121-133 | n presses of one arrow move n steps along the row or column modulo 9, and the other coordinate never changes |
| Cursor.NinePressesReturn | SudokuGameFX.java:121-133 | nine presses of any key return focus to where it started |
| Cursor.CellAt | SudokuGameFX.java:204-208 | the cell at reading-order position k is on the board and has that position |
| Cursor.NextCell | SudokuGameFX.java:204-208 | the cell after p is on the board, one further in reading order, and position 80 wraps to 0 |
| Cursor.NextCellInjective | SudokuGameFX.java:204-208 | different cells have different successors |
| Cursor.NextCellOnto | SudokuGameFX.java:204-208 | every cell is the successor of some cell, so Enter visits all 81 cells in turn |
| Cursor.NextCellWraps | SudokuGameFX.java:205-207 | Enter at the end of a row moves to the start of the next row, and from the bottom-right cell to the top-left one |
| Cursor.Focus.constructor | SudokuGameFX.java:12-13 | a new window focuses the top-left cell |
| Cursor.Focus.HandleArrowKeys | SudokuGameFX.java:119-139 | the focus becomes the arrow target of the pressed key from (row, col) and stays on the board |
| Cursor.Focus.KeyPressed | SudokuGameFX.java:60-65 | a key press calls the arrow handler with the focused cell, so focus moves to the arrow target of the old focus and stays on the board |
| Cursor.Focus.EnterPressed | SudokuGameFX.java:158-163 | Enter calls the next-cell handler with the focused cell, so focus moves to the next cell in reading order after the old focus |
| Cursor.Focus.MoveFocusToNextCell | SudokuGameFX.java:204-212 | the focus becomes the next cell in reading order after (row, col) |

## Left out

- The Swing window is not modelled: the widgets and layout, `requestFocus`, the red background and the read-only starting cells. Of the listeners, only the key and Enter handlers' calls with the focused cell are modelled (`KeyPressed`, `EnterPressed`). This is UI without engine logic. Red backgrounds are never cleared in the source; the model returns the set of cells coloured by one Check.
- The text-field filter (`insertString` accepting "[1-9]" or empty) and the `Integer.parseInt` step of `checkSudoku` are not modelled. `CheckSudoku` takes the parsed board, with 0 for an empty or unparsable field. Both are string handling in the UI layer.
- `java.util.Random` becomes a finite supplied sequence of draws in [0, 8]. A sequence too short to finish ends with the extra outcome `DrawsExhausted`, which a real random source never produces. Before every attempt an empty cell exists (as many cells are empty as attempts are left), so only the draws decide when the redraw loop of `fillSudoku` ends; with finite draws it always ends.
- The boolean of `fillSudoku` becomes the datatype `Outcome`: `Complete` is `true`, and `Rejected` is `false` together with the refused cell and digit.
- Generator.FillSudoku: the method starts from an array that is already all zero, as `generateValidRandomSudoku` provides. It is not stated for other starting contents.
- Cursor.NextCellOnto: repeated presses of Enter are stated through the one-step successor being a bijection on the 81 cells, not as an iterated tour.
- The Java `int` range is not modelled. All values stay within 0..81, so no arithmetic wraps.
