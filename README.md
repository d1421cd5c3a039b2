# sudoku-next: the grid, the single-candidate propagator and the backtracking walk

This project models the solver core of sudoku-next in Dafny.

The core is three parts:

- `SudokuGrid`: 81 cells, each with a given and a guess.
- `fillSingleGuesses`: fills, in place, every cell that has a single candidate.
- `backtracking`: walks the given-less cells and copies the grid at every cell with several candidates.

The project proves what each operation computes and what it keeps. It also proves two places where the code does not do what its comments and tests promise, under "## Findings".

Files and modules:

- `board.dfy` (`Board`): the value-level board, whose cells are the type `Grid`.
  - Cells, positions and construction layouts.
  - The given-less scans.
  - The candidate scans of a row, a column and a box, and the candidate set.
  - Consistency (no digit twice in a unit) and the proof that a complete consistent board is a solution.
- `print.dfy` (`Text`): the text `print` produces, and its layout.
- `sudoku.dfy` (`Sudoku`): `SudokuGrid` as a class over an `array<Cell>` that its methods update in place.
- `single_guess.dfy` (`SingleGuess`): `fillSingleGuesses` as a loop over the grid. It also holds the propagator whose flag means what the doc comment says.
- `backtracking.dfy`:
  - `Backtracking`: `backtracking` as written, and `Walk`, the same walk as a function of the cells alone, which the methods' outcomes follow.
  - `CorrectedBacktracking`: the search its header comment describes.
- `fixtures.dfy` (`Fixtures`): what the operations do on the grids of the repository's tests, and on a grid that makes the backtracking walk go round in a circle.

Representation:

- `null` is the value 0. The constructor maps 0 and a missing entry to `null` (`x || null`), so 0 is never a digit.
- A cell is addressed by its position (`CellRef.At`) where the source compares cell objects by identity. A cell object of another grid is `CellRef.Foreign`; it carries its own value because `getAvailableGuesses` reads that value first.
- A `Set<number>` of candidates is an ascending `seq<int>`. The source builds every set from `[1..9]` by `delete` and `filter`, which keep insertion order, so iteration order is ascending.

The code differs from the intended design in several places, and the model follows the code:

- The propagator records no solver steps. Its flag is true only when the grid has no given-less cell at entry.
- `backtracking` runs no propagation pass and records no steps. It has no "backtracking needed" flag. It walks the cells in row-major order instead of branching at the first empty cell.
- For a cell with several candidates, `backtracking` keeps only the copy made for the last candidate, and writes that candidate into the copy's first given-less cell.

## Model

| member | source | states |
|---|---|---|
| Board.NewCellLayers | app/sudoku/sudoku.tsx:13-24 | a new cell keeps its given; a cell with a given has no guess and its value is the given; a given-less cell's value is the guess |
| Board.SetValueKeepsGiven | app/sudoku/sudoku.tsx:26-28 | `setValue` writes the guess only: the given is unchanged, so is a given cell's value, and a given-less cell's value becomes the new one |
| Board.FirstEmptyFrom | app/sudoku/sudoku.tsx:57-67 | the result is a position at or after the start whose given is null and every earlier scanned cell has a given; none means every cell from the start has a given |
| Board.FirstEmptyFromUnique | app/sudoku/sudoku.tsx:57-67 | that characterisation determines the scan's result: a given-less cell with only givens between the start and it is the result |
| Board.Delete | app/sudoku/sudoku.tsx:125 | `Set.delete`: members are those of the input other than `x`, and ascending order is kept |
| Board.Intersect | app/sudoku/sudoku.tsx:166-175 | the `filter`: members are those of the box set also in the row and column sets, in the box set's order |
| Board.IncreasingUnique | app/sudoku/sudoku.tsx:162-176 | two ascending sequences with the same members are equal, so a set is determined by its members |
| Board.AllDigits | app/sudoku/sudoku.tsx:121 | the starting set `[1..9]` is ascending |
| Board.AllDigitsMembers | app/sudoku/sudoku.tsx:121 | its members are exactly the digits 1..9 |
| Board.Strike | app/sudoku/sudoku.tsx:124-125 | one scan step: a null cell changes nothing, a valued cell removes its value; ascending order is kept |
| Board.RowMissingMembers | app/sudoku/sudoku.tsx:123-126 | after `k` columns the row scan holds exactly the digits none of those cells holds |
| Board.RowMissingAll | app/sudoku/sudoku.tsx:116-128 | the whole row scan leaves, ascending, exactly the digits absent from the row |
| Board.ColMissingMembers | app/sudoku/sudoku.tsx:137-140 | after `k` rows the column scan holds exactly the digits none of those cells holds |
| Board.ColMissingAll | app/sudoku/sudoku.tsx:130-142 | the whole column scan leaves, ascending, exactly the digits absent from the column |
| Board.BoxMissingMembers | app/sudoku/sudoku.tsx:153-158 | after the box rows above `i` and `j` cells of row `i`, the box scan holds exactly the digits none of those cells holds |
| Board.BoxMissingAll | app/sudoku/sudoku.tsx:144-160 | the whole box scan leaves, ascending, exactly the digits absent from the box |
| Board.BoxStartIsFloor | app/sudoku/sudoku.tsx:151-152 | the box's first row (column) is `3 * floor(x / 3)` |
| Board.CandidatesFrom | app/sudoku/sudoku.tsx:162-176 | ascending digits 1..9; members are exactly the candidates from `d` on |
| Board.Candidates | app/sudoku/sudoku.tsx:162-176 | empty for a foreign cell or a cell with a value; otherwise, ascending, exactly the digits absent from the cell's row, column and box |
| Board.UnvaluedCountFill | app/solver/single-guess.tsx:17-20 | giving a value to a valueless cell lowers the number of valueless cells by one |
| Board.CandidateIffConsistentFill | app/solver/backtracking.tsx:10-13 | on a board with no repeated digit, writing a digit into a valueless cell keeps it so exactly when the digit is a candidate (both directions) |
| Board.CompleteConsistentIsSolution | app/solver/backtracking.tsx:15 | a complete board with no repeated digit holds every digit in every row, column and box |
| Board.NineDigitsOnce | app/solver/backtracking.tsx:15 | nine values that include every digit 1..9 hold each digit exactly once |
| Board.SolutionIsCompleteConsistent | app/solver/backtracking.tsx:15 | the converse: a board holding every digit in every row, column and box is complete and repeats no digit |
| Board.SoleCandidateSound | app/solver/single-guess.tsx:16-18 | a cell's only candidate is the digit every solution extending the board has there, so writing it keeps every such solution an extension |
| Text.RowTextLayout | app/sudoku/sudoku.tsx:182-189 | a data row has 13 characters, a bar at every fourth, and the cell of column `c` at `1 + c + c / 3` |
| Text.PartsLayout | app/sudoku/sudoku.tsx:179-191 | 13 lines: a separator at lines 0, 4, 8 and 12, and row `r` at line `1 + r + r / 3` |
| Text.JoinLayout | app/sudoku/sudoku.tsx:192 | lines of 13 characters joined by a separator character: line `k` starts at `14 * k` with the separator between lines |
| Text.RenderLines | app/sudoku/sudoku.tsx:178-193 | the text has 181 characters, a newline at every position `14k + 13`, and line `i / 14` elsewhere |
| Text.RenderSeparators | app/sudoku/sudoku.tsx:181 | lines 0, 4, 8 and 12 are all dashes |
| Text.RenderBars | app/sudoku/sudoku.tsx:184 | data lines have bars at columns 0, 4, 8 and 12 |
| Text.RenderCells | app/sudoku/sudoku.tsx:185-186 | each cell's character (its digit, or a space for null) stands at its row's line and column |
| Sudoku.SudokuGrid.constructor | app/sudoku/sudoku.tsx:44-55 | the 81 cells are built from the two layouts, 0 or missing read as null, and a given cell has no guess |
| Sudoku.SudokuGrid.SetValue | app/sudoku/sudoku.tsx:26-28 | only the guess of the cell at `p` changes; every other cell and every given stays |
| Sudoku.SudokuGrid.GetFirstEmptyCell | app/sudoku/sudoku.tsx:57-67 | the first given-less cell in row-major order (whatever its guess), or none |
| Sudoku.SudokuGrid.GetNextEmptyCell | app/sudoku/sudoku.tsx:80-98 | the first given-less cell strictly after the cell, or none; none for a foreign cell |
| Sudoku.SudokuGrid.GetEmptyCopy | app/sudoku/sudoku.tsx:100-102 | a new grid with the same givens and no guesses |
| Sudoku.SudokuGrid.GetCopy | app/sudoku/sudoku.tsx:104-114 | a new, independent grid with the same givens whose cells have this grid's values |
| Sudoku.Snapshot | app/sudoku/sudoku.tsx:104-114 | the copy's cells have the same givens and the same values, and each given-less cell's value is held as its guess |
| Sudoku.SudokuGrid.GetAvailableGuessesInRow | app/sudoku/sudoku.tsx:116-128 | empty for a foreign or valued cell; otherwise, ascending, exactly the digits absent from the row |
| Sudoku.SudokuGrid.GetAvailableGuessesInCol | app/sudoku/sudoku.tsx:130-142 | the same for the column |
| Sudoku.SudokuGrid.GetAvailableGuessesInBox | app/sudoku/sudoku.tsx:144-160 | the same for the 3x3 box |
| Sudoku.SudokuGrid.GetAvailableGuesses | app/sudoku/sudoku.tsx:162-176 | the candidate set: empty for a foreign or valued cell, else the digits absent from row, column and box, ascending |
| Sudoku.SudokuGrid.Print | app/sudoku/sudoku.tsx:178-193 | the text is the rendering whose layout the `Text` lemmas state |
| SingleGuess.ScanSkip | app/solver/single-guess.tsx:21-22 | skipping a cell without a single candidate extends the checked prefix to the next given-less cell |
| SingleGuess.ScanRestart | app/solver/single-guess.tsx:19-20 | nothing needs checking before the first given-less cell |
| SingleGuess.ScanComplete | app/solver/single-guess.tsx:14 | a scan that ran off the end leaves no cell with a single candidate |
| SingleGuess.FillKeeps | app/solver/single-guess.tsx:17-20 | filling the single candidate keeps every value and the absence of repeated digits, and lowers the valueless count |
| SingleGuess.PropagateStep | app/solver/single-guess.tsx:16-18 | filling a cell with its single candidate extends the fill log by that cell |
| SingleGuess.PropagatedSound | app/solver/single-guess.tsx:3-10 | every solution that extends the starting cells extends the cells after any logged run of single-candidate fills |
| SingleGuess.FillStep | app/solver/single-guess.tsx:16-20 | a fill keeps the start's values and consistency, extends the fill log, and lowers the valueless count |
| SingleGuess.ScanStep | app/solver/single-guess.tsx:15-23 | the step fills exactly when `p` has a single candidate: that candidate is written in `p`, the log gains `p`, and the scan restarts at the first given-less cell; otherwise nothing changes and the scan moves to the next given-less cell after `p` |
| SingleGuess.FillSingleGuesses | app/solver/single-guess.tsx:12-29 | ends; the final cells are the start with the logged cells filled in order, each with the single candidate it has at that point; every solution extending the start extends the result; the flag is true exactly when no cell is given-less, and then the grid is unchanged; valued cells keep their values; no repeated digit is introduced; no cell is left with a single candidate |
| SingleGuess.FillSingleGuessesReportingSolved | app/solver/single-guess.tsx:3-10 | the same fill log and the same soundness; the flag is true exactly when the grid ends fully valued, and then it equals every solution that extends the start; with consistent input, a true flag means a solution |
| Backtracking.WriteAdvances | app/solver/backtracking.tsx:67-74 | after a write, no next given-less cell means a complete board; otherwise every cell before the next one is valued |
| Backtracking.FilledBeforeFirstEmpty | app/solver/backtracking.tsx:21-22 | on a board whose only values are its givens, every cell before the first given-less cell is valued |
| Backtracking.FirstEmptyNoLater | app/solver/backtracking.tsx:57-61 | a given-less current cell means the first given-less cell exists and is no later |
| Backtracking.AllGivensComplete | app/solver/backtracking.tsx:24-30 | a grid without given-less cells is complete |
| Backtracking.SnapshotOfEmpty | app/sudoku/sudoku.tsx:104-114 | a copy of the empty copy has the same cells, since only givens carry values |
| Backtracking.WalkOnlyCell | app/solver/backtracking.tsx:47-72 | when the first given-less cell is the only one, the walk writes its largest candidate into it and ends with those cells, for one candidate or several |
| Backtracking.ResumeBehindIsDeadEnd | app/solver/backtracking.tsx:36-74 | several candidates at a cell behind which every cell is valued, with the second given-less cell before it: the walk resumes at that valued cell and ends as a dead end |
| Backtracking.WalkSingleOn | app/solver/backtracking.tsx:47-74 | a single candidate goes into the cell itself and the walk goes on at the next given-less cell with one unit of fuel less |
| Backtracking.WalkSeveral | app/solver/backtracking.tsx:51-74 | several candidates: the walk goes on from the snapshot with the largest candidate at the first given-less cell, at the given-less cell after that one |
| Backtracking.WalkAtValued | app/solver/backtracking.tsx:36-41 | a cell that holds a value has no candidate, so the walk ends there as a dead end |
| Backtracking.GuessInCopy | app/solver/backtracking.tsx:57-63 | the callback: a fresh copy with the value in its first given-less cell, and the given-less cell after that one |
| Backtracking.CopyForEachGuess | app/solver/backtracking.tsx:52-64 | what the `forEach` leaves: the copy for the last candidate, written into the first given-less cell, and the cell after that one |
| Backtracking.IsSudokuValid | app/solver/backtracking.tsx:34-75 | ends as the walk `Walk` on the grid's cells ends: a dead end, the grid found whose cells are the walk's final cells, or out of fuel. Also: no candidate is a dead end; a single candidate is written into the current cell in place, several leave the grid unchanged; cells before the current one never change; a returned grid is complete with the same givens |
| Backtracking.GuessInPlace | app/solver/backtracking.tsx:47-50 | the value goes into the current cell and no earlier cell changes; with no next given-less cell the walk returns this grid; the end is the walk's end from the written cells at the next given-less cell |
| Backtracking.GuessInCopies | app/solver/backtracking.tsx:51-74 | the walk goes on in the last copy; with no next given-less cell it returns that copy, whose cells are the snapshot with the largest candidate at the first given-less cell; the end is the walk's end from those cells |
| Backtracking.ContinueWalk | app/solver/backtracking.tsx:67-74 | no next cell returns `nextGrid` unchanged; otherwise the walk goes on there, cells before it do not change, and the end is the walk's end from `nextGrid`'s cells |
| Backtracking.Backtracking | app/solver/backtracking.tsx:20-81 | a grid without given-less cells is returned as it is. Otherwise the result follows the walk from the empty copy at the first given-less cell: a dead end gives no grids, out of fuel gives none and not finished, and reaching cells gives exactly one grid with those cells. When the first given-less cell is the only one, that grid is the empty copy with the cell's largest candidate written in. No candidate at the first cell gives no grids. At most one grid, complete, with the input's givens, new unless it is the input |
| CorrectedBacktracking.SameValuesAgree | app/solver/backtracking.tsx:57 | a copy has the same candidates and the same consistency as the grid it was made from |
| CorrectedBacktracking.GuessKeepsRules | app/solver/backtracking.tsx:10-13 | writing a candidate into a copy keeps every value and introduces no repeated digit |
| CorrectedBacktracking.FoundFromEarlier | app/solver/backtracking.tsx:14-16 | a grid found from a later state of a branch is a valid find for the branch's earlier state |
| CorrectedBacktracking.SearchFrom | app/solver/backtracking.tsx:3-19 | every grid returned is new, complete, has the givens, keeps every value the start had, and is a solution when the start repeated no digit |
| CorrectedBacktracking.SearchGuess | app/solver/backtracking.tsx:13-16 | one candidate in its own copy: the same guarantee for what it finds |
| CorrectedBacktracking.BacktrackingAllSolutions | app/solver/backtracking.tsx:3-19 | a grid without given-less cells is returned as it is; every grid returned is complete with the givens, and a solution when the givens repeat no digit |
| Fixtures.SolvedAllGiven | app/solver/single-guess.spec.ts:6-16 | the solved puzzle has no given-less cell |
| Fixtures.SolvedPrint | app/solver/single-guess.spec.ts:20-34 | the solved puzzle prints as the expected thirteen lines |
| Fixtures.EasyPrint | app/sudoku/sudoku.spec.ts:63-80 | the easy puzzle prints as the expected thirteen lines, with spaces for null cells |
| Fixtures.EasyRow | app/sudoku/sudoku.spec.ts:20-25 | the values of row 4 of the easy puzzle |
| Fixtures.EasyCol | app/sudoku/sudoku.spec.ts:28-33 | the values of column 1 of the easy puzzle |
| Fixtures.EasyBox | app/sudoku/sudoku.spec.ts:36-41 | the values of the middle-left box of the easy puzzle |
| Fixtures.EasyMissing | app/sudoku/sudoku.spec.ts:44-50 | the candidates of row 4, column 1 are 2, 4 and 7 and no other |
| Fixtures.EasyCandidates | app/sudoku/sudoku.spec.ts:44-50 | `getAvailableGuesses` there is exactly `[2, 4, 7]` |
| Fixtures.SolvedRun | app/solver/single-guess.spec.ts:5-35 | on the solved puzzle the flag is true and `print` gives the expected text |
| Fixtures.EasyRun | app/solver/single-guess.spec.ts:37-51 | on the easy puzzle the flag as written is false, where the test expects true |
| Fixtures.OneHoleCandidates | app/solver/single-guess.tsx:16-17 | the one-hole grid's hole has the single candidate 9 |
| Fixtures.OneHoleCompletes | app/solver/single-guess.tsx:13-24 | any board that keeps the one-hole grid's values and has no single-candidate cell is complete |
| Fixtures.OneHoleRun | app/solver/single-guess.tsx:13-22 | on the one-hole grid the propagator completes the grid yet returns false; the corrected flag returns true |
| Fixtures.EasyGivenless | app/solver/backtracking.spec.ts:8-18 | the easy puzzle's given-less cells start at row 0, columns 1, 5 and 6, in that order |
| Fixtures.EasyStart | app/solver/backtracking.spec.ts:8-18 | the values of row 0, column 1, the top-left box, and the columns and boxes of row 0's columns 5 and 6, of the easy puzzle without guesses |
| Fixtures.EasyFirstCandidates | app/sudoku/sudoku.tsx:162-176 | on those cells, row 0, column 1 has the single candidate 9 |
| Fixtures.EasySecondCandidates | app/sudoku/sudoku.tsx:162-176 | with 9 written there, row 0, column 5 has the single candidate 5 |
| Fixtures.EasyThirdCandidates | app/sudoku/sudoku.tsx:162-176 | with 5 written there too, every cell before row 0, column 6 holds a value and that cell has the candidates 3 and 7 |
| Fixtures.WalkSingleSingleSeveral | app/solver/backtracking.tsx:34-75 | a walk that meets one candidate, then one, then several at a cell after the second given-less cell, ends as a dead end |
| Fixtures.EasyWalk | app/solver/backtracking.tsx:34-75 | on the easy puzzle the walk writes 9 and 5 in place, then 7 into a copy at row 0, column 1, and resumes at row 0, column 5, which holds 5: a dead end |
| Fixtures.EasyBacktracking | app/solver/backtracking.spec.ts:21-23 | `backtracking` on the easy puzzle returns `[]` and the walk finished, for any fuel of at least three steps |
| Fixtures.SingleGivenConsistent | app/solver/backtracking.tsx:20-22 | the single-given grid repeats no digit |
| Fixtures.SingleGivenWalk | app/solver/backtracking.tsx:52-74 | three walk steps from the single-given grid: 8 then 9 at row 0, column 0 (the second board breaks column 0), then back at the first board and cell |

## Left out

- The UI (`app/components/*`), `app/backtracking.tsx` and `app/solver/step.tsx` are not part of this model.
- The `IGrid`/`IGridCell` interfaces are not modelled; the solvers use `SudokuGrid` directly.
- Object identity of cells is not modelled; positions stand in for it. `getCopy` and `getEmptyCopy` build new cells, so no cell object is shared between grids. `findCellPosition` becomes `Sudoku.FindCellPosition`, the projection of a cell reference `At(p)` onto `p`; a foreign cell is not found.
- Numbers outside 0..9, and non-integers, are not modelled. An `undefined` layout is the empty layout, which reads as null everywhere.
- `Math.floor` is modelled by `BoxStart`, which `Board.BoxStartIsFloor` shows equal to `3 * floor(x / 3)`.
- Each row's parts are concatenated into one string instead of pushed into an array and joined with `''`. The text is the same.
- JavaScript's call-stack depth is not modelled. The recursive scan of `fillSingleGuesses` is a loop, and `_isSudokuValid` is a method recursion.
- Backtracking.Backtracking: takes a `fuel` bound and reports running out, because the walk as written need not end (`Fixtures.SingleGivenWalk`).
- Backtracking.IsSudokuValid: proved to return complete grids with the puzzle's givens, not rule-abiding ones. As written, the walk can write a digit that repeats one of its unit (`Fixtures.SingleGivenWalk`).
- CorrectedBacktracking.BacktrackingAllSolutions: proved sound (every grid returned is a completion, and a solution when the givens repeat no digit). Completeness, that every solution is returned, is not proved.
- Fixtures.SingleGivenWalk: shows the walk coming back to an earlier state. It does not prove that `Backtracking.Backtracking` runs out of fuel for every fuel.
- The solved print expected after `fillSingleGuesses` on the easy puzzle (`app/solver/single-guess.spec.ts:52-66`) and the harder puzzle with its expected board (`app/solver/single-guess.spec.ts:69-99`) are not derived. The model does not evaluate the propagation on these literal boards: that would mean proving the candidate set at each of their dozens of fills and scan steps. What is proved for every input covers them in part: each fill writes the cell's single candidate (`SingleGuess.Propagated`), and every solution that extends the puzzle extends the result (`SingleGuess.PropagatedSound`), so a result that ends fully valued is the puzzle's solution. `Fixtures.EasyRun` states the flag only.
- The row, column and box tests of `app/sudoku/sudoku.spec.ts:20-42` are not modelled as calls. They pass row or column numbers where the methods take a cell. `Fixtures.EasyRow`, `Fixtures.EasyCol` and `Fixtures.EasyBox` state the unit values they rest on.
- The three-argument `SudokuGridCell` of `app/sudoku/sudoku.spec.ts:52-55` is not modelled. A foreign cell's empty candidate set is part of `Board.Candidates`.

## Findings

| source | as written | input that shows it | evidently intended | confidence | as-written member | corrected member |
|---|---|---|---|---|---|---|
| app/solver/single-guess.tsx:13-22 | The flag returned is the one passed with the call that finds no current cell. A fill passes true but restarts at the first given-less cell, which still exists (the filled cell is one), so the scan can end only after a skip, which passes false. | The easy puzzle of `app/solver/single-guess.spec.ts:37-51`; the solved puzzle with the given at row 0, column 1 removed, where one fill completes the grid and the call returns false. | True when the grid, changed in place, ends fully solved (doc comment at lines 3-10; the test expects true). | not executed | SingleGuess.FillSingleGuesses, Fixtures.EasyRun, Fixtures.OneHoleRun | SingleGuess.FillSingleGuessesReportingSolved |
| app/solver/backtracking.tsx:52-64 | Each `forEach` round overwrites `nextGrid` and `nextCell`, so only the copy for the last candidate is searched on. That candidate goes into the copy's first given-less cell, not into `currentCell`. | A grid whose only given is a 9 at row 3, column 0. The walk writes 8 at row 0, column 0, then 9 there, which repeats column 0's 9. Then it writes 8 there again and is back at its first board and cell, with no end. | Every candidate tried in `currentCell` of its own copy, every branch searched, and every complete grid returned (header comment, lines 3-19). | not executed | Backtracking.CopyForEachGuess, Fixtures.SingleGivenWalk | CorrectedBacktracking.BacktrackingAllSolutions |
