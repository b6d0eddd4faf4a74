# SudokuLadder core in Dafny

This project models the game logic of SudokuLadder, a SwiftUI Sudoku app, and
proves properties of the model.

The app keeps a grid of cells. Each cell has:
- a position and a region (box);
- an optional given and an optional entered value;
- pencil marks and centre marks;
- a selection mark;
- the set of names of the constraints it currently fails.

A constraint is a named rule over a list of positions. Two rules exist:
- uniqueness in a group (`uniqueInRegion`);
- a killer cage with a target sum (`KillerCageWithSumConstraint(sum:)`).

Writing a digit into a cell clears every constraint's name from the whole board. It then re-runs every constraint over its cells and marks the reported cells. Finally it checks for victory. Deleting clears the first non-empty item of the cell, in an order that depends on the input mode. The app starts from the layout `normalSudoku`, turned into a game by `layoutToSuduoku`.

Modules, one per source file:

- `Optional` (`optional.dfy`): Swift's optional, as `Option`.
- `CellModel` (`cell_model.dfy`): the `Cell` struct of `GameLogic.swift`, `Point`, `Edge`, and abstract colour tags. The `mutating` methods of a Swift struct are functions that return the updated value.
- `UniqueInRegion` (`unique_in_region.dfy`): `uniqueInRegion`, as a method with nested loops, specified by the set `Duplicates`.
- `KillerCage` (`killer_cage.dfy`): the closure of `KillerCageWithSumConstraint`, specified by `CageViolations`.
- `Constraints` (`constraints.dfy`): the per-cell `valid` predicates and the default constraint names.
- `GameBoard` (`game_board.dfy`): the board as `seq<seq<Cell>>`, the rule variants, and the functions that describe each `GridGame` operation's result. This module also holds the lemmas about those functions.
- `GameLogic` (`game_logic.dfy`): the `GridGame` class.
  - Its fields are `cells`, `height`, `width`, `selected`, `inputMode`, `constraints` and `victory`.
  - Its methods keep the source's loops.
  - Each method is proved against a `GameBoard` function.
- `Sudoku` (`sudoku.dfy`): the first grid design (`Sudoku.swift`) and `nineByNineBox`.
- `ContentView` (`content_view.dfy`): `splitArray`, `c`, `layoutToSuduoku` and `normalSudoku`. It also holds the earlier `GridGame`, of which only `setCellValue` is modelled.

Behaviour modelled as the code has it, where a reader might expect otherwise:

- The killer-cage sum test also fires on a partly filled cage: every filled cell is reported as soon as the filled values do not add up to the target.
- `checkVictory` sets `victory` but never clears it.
- Clearing a value empties the failure set of that one cell only. Other cells keep flags that the cleared value caused.
- `reset` leaves failure flags and selection untouched.
- Optional equality makes two empty cells equal in the `valid` predicates of `Constraints.swift`. So an empty cell next to another empty cell is judged invalid.
- `uniqueInRegion` and the killer cage skip empty cells explicitly.
- In BigNumber mode, `handleInput` runs `setCellValue` once per selected cell. After the loop the board equals the board of writing every selected open cell and then re-checking once. The model proves this, and works with the board after the loop.

The source as shown does not compile, and the model resolves each problem as follows:
- `Cell`, `GridGame` and `ControlMode` are each declared twice, in `GameLogic.swift` and `ContentView.swift`. The model uses the `GameLogic.swift` `Cell` everywhere. The `ContentView.swift` `GridGame` becomes a separate class, `ContentView.GridGame`.
- `Constraints.swift:32` writes `-> bool`.
- `GameLogic.swift` reads `constraint.cells` and calls `constraint.valid(...)` with a list of cells. The `Constraint` struct in `Constraints.swift:14-17` has `name` and `group` and no `valid`. The model follows `GameLogic.swift`: a constraint is a name, a list of points and a rule.
- `Point` is not part of this model's source files. It is modelled as a row and a column.

## Model

| member | source | states |
|---|---|---|
| CellModel.NewCell | SudokuLadder/GameLogic.swift:23-34 | A fresh cell has the given position, region and given. Its value is empty, it is unselected, and its marks, borders and failures are empty. |
| CellModel.GivenShadowsValue | SudokuLadder/GameLogic.swift:36-38 | The effective value is the given when there is one, whatever is written. Otherwise it is the written value. |
| CellModel.MutatorsTouchOneField | SudokuLadder/GameLogic.swift:66-88 | Each mutating method changes only its own field. Adding a mark keeps the old marks and adds exactly that digit. Clearing empties the field. |
| CellModel.ForegroundColorPriority | SudokuLadder/GameLogic.swift:45-56 | The background tag is failed-and-selected, failed, selected or clear. Each holds exactly under its combination of "has failures" and "selected". |
| CellModel.DisplayColorOfGiven | SudokuLadder/GameLogic.swift:59-64 | The text colour is the given colour exactly when the cell has a given. |
| UniqueInRegion.UniqueInRegion | SudokuLadder/UniqueInRegion.swift:8-28 | The nested loops return exactly `Duplicates(group)`: both cells of every pair of filled cells at different positions with equal effective values. |
| UniqueInRegion.DuplicatesCharacterized | SudokuLadder/UniqueInRegion.swift:10-24 | A position is reported iff a filled cell there has the same effective value as a cell at another position. |
| UniqueInRegion.DuplicatesAreFilledGroupCells | SudokuLadder/UniqueInRegion.swift:15-23 | Every reported position belongs to a filled cell of the group. |
| UniqueInRegion.EmptyCellsNotFlagged | SudokuLadder/UniqueInRegion.swift:15-20 | A position holding only empty cells is never reported. |
| UniqueInRegion.DuplicatesSymmetric | SudokuLadder/UniqueInRegion.swift:21-24 | Both ends of a clash are reported. |
| UniqueInRegion.DistinctValuesNoDuplicates | SudokuLadder/UniqueInRegion.swift:8-28 | A group whose filled values differ between positions reports nothing. |
| UniqueInRegion.DuplicatesIncluded | SudokuLadder/UniqueInRegion.swift:10-11 | A larger group reports at least what a smaller one does (monotonicity). |
| UniqueInRegion.DuplicatesOrderIndependent | SudokuLadder/UniqueInRegion.swift:10-11 | The result depends only on which cells are in the group, not on their order or repetition. |
| UniqueInRegion.DuplicatesDependOnValuesOnly | SudokuLadder/UniqueInRegion.swift:12-21 | The result depends only on positions and effective values. |
| KillerCage.KillerCageWithSumConstraint | SudokuLadder/KillerCage.swift:10-46 | The two loops return exactly `CageViolations(sum, region)`: all clashes, plus every filled cell when the filled sum misses the target. |
| KillerCage.CompareWithCage | SudokuLadder/KillerCage.swift:25-36 | The inner loop adds both ends of every clash of cell `i` with the cage. |
| KillerCage.CageViolationsCharacterized | SudokuLadder/KillerCage.swift:14-44 | A position is reported iff a filled cell there clashes or the filled sum is off. |
| KillerCage.CageClashBothReported | SudokuLadder/KillerCage.swift:32-35 | Both ends of a clash are reported. |
| KillerCage.WrongSumFlagsEveryFilledCell | SudokuLadder/KillerCage.swift:38-44 | A wrong sum reports every filled cell, even while other cells of the cage are empty. |
| KillerCage.FilledSumOfEmpty | SudokuLadder/KillerCage.swift:15-21 | Empty cells add nothing to the running sum. |
| KillerCage.EmptyCageReportsNothing | SudokuLadder/KillerCage.swift:14-44 | A cage with no filled cell reports nothing, whatever its target. |
| KillerCage.SolvedCageReportsNothing | SudokuLadder/KillerCage.swift:14-44 | Distinct filled values that add up to the target: nothing is reported. |
| KillerCage.FullCageSumCheck | SudokuLadder/KillerCage.swift:38-44 | For a filled cage, all cells are reported iff the sum is off or every cell clashes. |
| KillerCage.FilledSumAppend | SudokuLadder/KillerCage.swift:13-21 | The running sum of a concatenation is the sum of the two sums. |
| KillerCage.FilledSumPermutation | SudokuLadder/KillerCage.swift:14-21 | The running sum does not depend on the order of the cage's cells. |
| KillerCage.CageViolationsPermutation | SudokuLadder/KillerCage.swift:10-46 | Reordering the cage's cells does not change what it reports. |
| KillerCage.CageViolationsDependOnValuesOnly | SudokuLadder/KillerCage.swift:10-46 | The sum and the report depend only on positions and effective values. |
| Constraints.DefaultNamesDistinct | SudokuLadder/Constraints.swift:36-81 | The four default names are pairwise distinct. |
| Constraints.UniqueInRowValid | SudokuLadder/Constraints.swift:37-47 | Holds iff every entry in another column has a different effective value. |
| Constraints.UniqueInColumnValid | SudokuLadder/Constraints.swift:52-62 | Holds iff every entry in another row has a different effective value. |
| Constraints.UniqueInRegionValid | SudokuLadder/Constraints.swift:67-77 | Holds iff every entry at another position has a different effective value. |
| Constraints.EmptyCellsClashInRow | SudokuLadder/Constraints.swift:42-44 | Two empty cells in one row make the row check fail, since nil equals nil. |
| Constraints.OnlySelfIsValid | SudokuLadder/Constraints.swift:37-77 | A list containing only the judged cell passes all three checks. |
| Constraints.RegionComparesSameRow | SudokuLadder/Constraints.swift:54-72 | The region check compares same-row cells that the column check skips. |
| GameBoard.Evaluate | SudokuLadder/GameLogic.swift:163 | Running a constraint's closure gives the rule's violations: duplicates, or the cage report. |
| GameBoard.ViolationsWithinGroup | SudokuLadder/GameLogic.swift:163-166 | Every reported position is that of a filled cell of the group. |
| GameBoard.ViolationsIgnoreFlags | SudokuLadder/GameLogic.swift:162-166 | Rules never read failure flags. |
| GameBoard.SetCell | SudokuLadder/GameLogic.swift:151 | `cells[row][col] = c` writes that cell and leaves every other cell and the shape unchanged. |
| GameBoard.SetCellTwice | SudokuLadder/GameLogic.swift:151-153 | A second write to a cell replaces the first. |
| GameBoard.CellsAtMembers | SudokuLadder/GameLogic.swift:171-183 | `cellsFromPoints` holds exactly the board cells whose position is listed. |
| GameBoard.CellsAtCount | SudokuLadder/GameLogic.swift:171-183 | A board cell appears as many times as its position is listed. |
| GameBoard.CellsAtRowMajor | SudokuLadder/GameLogic.swift:173-181 | The collected cells come in row-major board order. |
| GameBoard.CellsAtContent | SudokuLadder/GameLogic.swift:171-183 | Collecting commutes with dropping flags. |
| GameBoard.RecheckFlagsCharacterized | SudokuLadder/GameLogic.swift:156-167 | After the constraint loop a cell holds a name iff it held a flag that names no constraint, or the last constraint with that name reports it. |
| GameBoard.FlagsWithDistinctNames | SudokuLadder/GameLogic.swift:156-167 | With distinct names, a cell holds a constraint's name iff that constraint reports the cell. |
| GameBoard.ForeignFlagsKept | SudokuLadder/GameLogic.swift:156-167 | A flag that names no constraint survives the loop. |
| GameBoard.RecheckFlagsAbsorbs | SudokuLadder/GameLogic.swift:156-167 | The loop's result depends on earlier flags only through the foreign ones. |
| GameBoard.FlaggedIgnoresFlags | SudokuLadder/GameLogic.swift:162-163 | What a constraint reports does not depend on failure flags. |
| GameBoard.RecheckStep | SudokuLadder/GameLogic.swift:157-166 | One turn of the loop (remove everywhere, insert where reported) extends the pass by one constraint. |
| GameBoard.RecheckedAgree | SudokuLadder/GameLogic.swift:156-167 | Boards with the same contents and foreign flags re-check to the same board. |
| GameBoard.AfterSetIdempotent | SudokuLadder/GameLogic.swift:147-169 | Setting the same value twice gives the same board as setting it once. |
| GameBoard.Order | SudokuLadder/GameLogic.swift:230-277 | Each mode's clearing order is a permutation of the three items (value, centre marks, pencil marks), each listed once. |
| GameBoard.DeleteClearsFirstItem | SudokuLadder/GameLogic.swift:230-277 | A delete clears exactly the first non-empty item in the mode's order: value, centre, pencil; pencil, value, centre; or centre, value, pencil. |
| GameBoard.DeleteKeepsGiven | SudokuLadder/GameLogic.swift:147-150 | A delete never changes a given cell's value, effective value or flags. |
| GameBoard.EditAllStep | SudokuLadder/GameLogic.swift:216-226 | Editing one more selected position is one more single-cell update. |
| GameBoard.AfterWritesStep | SudokuLadder/GameLogic.swift:216-218 | One more BigNumber `setCellValue` turns the board after writing `ps` into the board after writing `ps + {p}`. |
| GameBoard.ResetKeepsGivens | SudokuLadder/GameLogic.swift:125-133 | Reset empties value and marks, and keeps givens, flags and selection. |
| GameBoard.ResetWonOnlyWhenAllGiven | SudokuLadder/GameLogic.swift:125-133 | A reset board counts as won only when every cell is an unflagged given. |
| GameBoard.EdgeBordersExact | SudokuLadder/GameLogic.swift:283-303 | A cell gets each edge border exactly on the matching side of the grid. |
| GameBoard.RegionBordersExact | SudokuLadder/GameLogic.swift:286-305 | A cell gets a region border on a side exactly when the neighbour there is in another region. |
| GameBoard.RegionBordersSymmetric | SudokuLadder/GameLogic.swift:286-305 | Region borders pair up: a cell's bottom border matches its lower neighbour's top one, and sideways likewise. |
| GameLogic.GridGame.constructor | SudokuLadder/GameLogic.swift:116-123 | `init` sets the dimensions from the non-empty grid and adds the static borders. It starts with an empty selection, BigNumber mode and no victory. |
| GameLogic.GridGame.Reset | SudokuLadder/GameLogic.swift:125-133 | The nested loops leave `ResetBoard(old cells)`. |
| GameLogic.GridGame.SelectCell | SudokuLadder/GameLogic.swift:135-138 | Marks the cell selected and adds its position to the selection. |
| GameLogic.GridGame.ClearSelection | SudokuLadder/GameLogic.swift:140-145 | Unmarks every selected cell and empties the selection. |
| GameLogic.GridGame.SetCellValue | SudokuLadder/GameLogic.swift:147-169 | A given cell is left alone. Clearing empties the cell's flags. Writing re-runs every constraint and then updates victory as `old victory or Won`. |
| GameLogic.GridGame.RecheckAll | SudokuLadder/GameLogic.swift:156-167 | The constraint loop leaves `Rechecked(old cells, constraints)`. |
| GameLogic.GridGame.RemoveNameEverywhere | SudokuLadder/GameLogic.swift:157-161 | Removes the name from every cell's flags. |
| GameLogic.GridGame.InsertName | SudokuLadder/GameLogic.swift:164-166 | Adds the name to exactly the reported cells. |
| GameLogic.GridGame.CellsFromPoints | SudokuLadder/GameLogic.swift:171-183 | Returns `CellsAt(cells, points)`. |
| GameLogic.RowCells | SudokuLadder/GameLogic.swift:174-180 | The middle loop returns the matches of one row. |
| GameLogic.CellMatches | SudokuLadder/GameLogic.swift:175-179 | The inner loop returns one copy of the cell per point naming it. |
| GameLogic.GridGame.CheckVictory | SudokuLadder/GameLogic.swift:185-197 | `victory` becomes `old victory or every cell filled and unflagged`. |
| GameLogic.GridGame.AddPencilMark | SudokuLadder/GameLogic.swift:199-204 | A given cell is untouched. Otherwise the digit is added to that cell's pencil marks. |
| GameLogic.GridGame.AddCenterMark | SudokuLadder/GameLogic.swift:206-211 | A given cell is untouched. Otherwise the digit is added to that cell's centre marks. |
| GameLogic.GridGame.HandleInput | SudokuLadder/GameLogic.swift:213-228 | BigNumber writes the digit into every open selected cell and re-checks. Victory is kept, and it is set when the result is won. The two mark modes add the mark to every selected open cell. |
| GameLogic.GridGame.WriteSelected | SudokuLadder/GameLogic.swift:215-218 | The BigNumber loop leaves `AfterWrites(old cells, constraints, selected, input)`. |
| GameLogic.GridGame.MarkSelected | SudokuLadder/GameLogic.swift:219-226 | The mark loops leave `EditAll(old cells, selected, mark)`. |
| GameLogic.GridGame.HandleDelete | SudokuLadder/GameLogic.swift:230-278 | Every selected cell gets the mode's delete. Victory is unchanged. |
| GameLogic.GridGame.DeleteAt | SudokuLadder/GameLogic.swift:233-276 | One cell's branch chain: exactly that cell changes, to `DeleteCell(mode, cell)`. |
| GameLogic.GridGame.SetStaticBorders | SudokuLadder/GameLogic.swift:280-309 | The nested loops leave `Bordered(old cells)`: edge and region borders appended, nothing else changed. |
| GameLogic.GridGame.CellEdges | SudokuLadder/GameLogic.swift:283-303 | The outer-edge appends for one cell, in source order. |
| GameLogic.GridGame.CellRegions | SudokuLadder/GameLogic.swift:286-305 | The region-border appends for one cell, in source order. |
| Sudoku.SetValueOnlyValue | SudokuLadder/Sudoku.swift:18-20 | `setValue` sets the value and nothing else. |
| Sudoku.AddPencilMarkAppends | SudokuLadder/Sudoku.swift:22-26 | A pencil mark is appended at the end, and the earlier marks are kept. |
| Sudoku.AddCenterMarkAppends | SudokuLadder/Sudoku.swift:28-32 | A centre mark is appended at the end, and the earlier marks are kept. |
| Sudoku.MarksKeepDuplicates | SudokuLadder/Sudoku.swift:23-31 | Marking a digit twice records it twice: duplicates are not suppressed. |
| Sudoku.FromCells | SudokuLadder/Sudoku.swift:42-46 | `init(cells:)`: height is the row count, width is the length of the first row. |
| Sudoku.NineByNineBoxFormula | SudokuLadder/Sudoku.swift:88-117 | On the grid the if-chain equals `(row / 3) * 3 + col / 3`. |
| Sudoku.NineByNineBoxOffGrid | SudokuLadder/Sudoku.swift:88-117 | Returns -1 exactly off the grid, and otherwise a number from 0 to 8. |
| Sudoku.BoxIsBlock | SudokuLadder/Sudoku.swift:88-117 | Box k is the 3x3 block with corner (3*(k/3), 3*(k%3)). |
| Sudoku.BoxHasNinePositions | SudokuLadder/Sudoku.swift:88-117 | Every box holds exactly nine positions. |
| Sudoku.NoBoxOffGrid | SudokuLadder/Sudoku.swift:88-117 | Numbers outside 0..8 name no position. |
| Sudoku.NewSudoku | SudokuLadder/Sudoku.swift:48-60 | `init()` gives a 9x9 grid of empty cells, each knowing its own row, column and box. |
| Sudoku.NewSudokuBoxes | SudokuLadder/Sudoku.swift:48-60 | Each fresh cell's box follows the box formula. |
| ContentView.SplitArray | SudokuLadder/ContentView.swift:72-80 | The halves concatenate back to the input. The first half has `min(count, 4)` elements, and the second is empty iff the count is at most 4. |
| ContentView.SplitArrayRoundTrip | SudokuLadder/ContentView.swift:72-80 | Splitting a four-element prefix followed by a rest gives back the two parts. |
| ContentView.C | SudokuLadder/ContentView.swift:46-52 | The dictionary maps row, col and box to the arguments, and given to the given when there is one. |
| ContentView.CKeys | SudokuLadder/ContentView.swift:46-52 | The keys are row, col and box, plus given exactly when a given is supplied. |
| ContentView.EntryRoundTrip | SudokuLadder/ContentView.swift:46-56 | Reading back an entry built by `c` gives the cell its arguments describe. |
| ContentView.LastAt | SudokuLadder/ContentView.swift:66-68 | Finds the last entry at a position, with nothing after it at that position, or reports that none exists. |
| ContentView.LayoutLastWins | SudokuLadder/ContentView.swift:54-70 | The cell of the last entry for a position is what the grid holds there. |
| ContentView.LayoutUncovered | SudokuLadder/ContentView.swift:58-65 | A position no entry names holds the placeholder `(0, 0, region 0)`. |
| ContentView.LayoutSnoc | SudokuLadder/ContentView.swift:66-68 | One more entry overwrites its own position and nothing else. |
| ContentView.PlaceholderGrid | SudokuLadder/ContentView.swift:58-65 | The nested loops give nine rows of nine placeholders. |
| ContentView.LayoutCells | SudokuLadder/ContentView.swift:54-69 | The built grid is `Layout(dic)`: 9x9, with the last entry's cell at every named position and the placeholder elsewhere. |
| ContentView.LayoutCoveredWellFormed | SudokuLadder/ContentView.swift:54-70 | A layout naming every position yields a grid whose cells carry their own coordinates. |
| ContentView.LayoutToSuduoku | SudokuLadder/ContentView.swift:54-70 | Returns a fresh 9x9 game over the bordered layout grid, with an empty selection, no constraints and no victory. |
| ContentView.RowMajorPositions | SudokuLadder/ContentView.swift:14-42 | A row-major listing of 81 entries names every position exactly once, each with its `nineByNineBox`. |
| ContentView.NormalSudokuRowMajor | SudokuLadder/ContentView.swift:14-42 | `normalSudoku` has 81 entries, and entry k is position (k / 9, k % 9) in box `nineByNineBox`. |
| ContentView.NormalSudokuPositions | SudokuLadder/ContentView.swift:14-42 | `normalSudoku` lists each of the 81 positions exactly once, and every entry's box equals `nineByNineBox(row, col)`. |
| ContentView.NormalSudokuLayout | SudokuLadder/ContentView.swift:610 | The starting game's cell (i, j) comes from entry 9*i+j and has position (i, j) and region `nineByNineBox(i, j)`. |
| ContentView.Flag | SudokuLadder/ContentView.swift:262-267 | Insert on failure, remove on success: the name is present iff the check failed, and other flags stay. |
| ContentView.ColumnMembers | SudokuLadder/ContentView.swift:268-275 | The collected column holds exactly the cells at index `col` of the rows long enough to have one. |
| ContentView.ColumnCells | SudokuLadder/ContentView.swift:268-275 | The enumerated double loop returns `Column(cells, col)`. |
| ContentView.GridGame.SetCellValue | SudokuLadder/ContentView.swift:255-287 | The cells become `PrototypeSet(old cells, row, col, value)`. |
| ContentView.PrototypeSetFrame | SudokuLadder/ContentView.swift:255-263 | Only the edited cell changes, and a given cell not at all. Clearing empties that cell's value and failures. |
| ContentView.PrototypeSetFlags | SudokuLadder/ContentView.swift:262-286 | Writing a value: the cell holds "UniqueInRow" iff another entry of its row, in a different column, has that value. It holds "UniqueInColumn" iff a cell of another row, in a different row, has it. Its other flags and fields are unchanged. |

## Left out

- All SwiftUI views, drawing, `EdgeBorder.path`, the `border` extension and `KillerCageView`: rendering.
- Colour values and `mix`: floating point. Colours are abstract tags.
- `UserSettings`: regex compilation, a foreign library call.
- `SudokuViewModel.swift` and the commented-out `Sudoku` methods: a thin wrapper with no logic.
- `selectCellFromPoint`: floating-point geometry.
- `@Published` and `ObservableObject` notification: UI plumbing.
- `displayValue`: integer-to-string formatting.
- Constraint closures: the source defines two rule factories, `uniqueInRegion` and `KillerCageWithSumConstraint(sum:)`. No code of the app builds a constraint from them: `GridGame.constraints` defaults to `[]`, and `layoutToSuduoku` passes none. `Rule` models exactly those two factories, as `Unique` and `KillerCageWithSum(sum)`. An arbitrary closure is not modelled.
- Set iteration order: results that Swift builds as `Set<Cell>` and returns as an array are modelled as sets of positions. Cells are hashed by position but compared on all fields; on a well-formed board the rules only ever insert the current cells, so a position stands for its cell. The order of the returned array is not modelled.
- GameLogic.GridGame.SelectCell and GameLogic.GridGame.HandleDelete: in the source, selecting a cell, editing it and selecting it again leaves two entries for that position in `selected`, because the edited copy is not equal to the stored one. One delete then runs once per entry and may clear two items of that cell (in BigNumber mode the value and then the centre marks). The model keeps one entry per position, so a second selection changes nothing and one delete clears one item.
- Swift's `Int` overflow: integers are unbounded. Swift traps on `Int` overflow in the cage sum; the model's unbounded sum has no trap.
- Out-of-range indexing: Swift traps on it, and the model requires the index to be in range.
- GameLogic.GridGame.constructor: it requires a rectangular grid whose cells carry their own coordinates. The source needs only a non-empty grid. Every later lookup `cells[cell.row][cell.col]` relies on the stronger shape.
- ContentView.LayoutToSuduoku: it requires a layout that names every position, because the game's constructor above needs coordinates to match; `normalSudoku` is proved to meet this. A layout with gaps is modelled by `LayoutCells`, which places the placeholder at (0, 0) coordinates into the gaps. The source passes the grid to the `ContentView.swift` `GridGame`, whose `init` is the same apart from the missing `constraints` parameter. The model builds a `GameLogic.GridGame` with no constraints.
- ContentView.GridGame.SetCellValue: the source loops over the fixed lists `[UniqueInRow()]` and `[UniqueInColumn()]`. The model runs exactly one row check and one column check.
- ContentView.GridGame: only `setCellValue` is modelled. Its other members repeat the `GameLogic.swift` text line for line (`init` without the constraints parameter, and no `reset`, `cellsFromPoints` or `checkVictory`). Their models in `GameLogic.GridGame` cover them, except that the prototype's `handleInput` and `handleDelete` call the prototype's own `setCellValue`.
- The `ContentView.swift` `Cell` and its `UniqueInRow`/`UniqueInColumn` copies are modelled by the `GameLogic.swift` `Cell` and the `Constraints.swift` predicates. The two copies differ only in `foregroundColor`, which lacks the failed-and-selected case, and the modelled operations never read that.
- GameLogic.GridGame.HandleInput: in BigNumber mode the state between two `setCellValue` calls of the loop is not exposed. The result after the loop is stated exactly. Victory is stated in part: kept once set, and set when the final board is won after an open cell was written. A victory set by a board that is won between two writes, and no longer won after a later write, is not stated.
- GameLogic.GridGame.WriteSelected: the loop behind `handleInput`'s BigNumber branch; its victory ensures have the same gap as `HandleInput` above.
