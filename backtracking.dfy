/**
 * `backtracking`: a depth-first walk over the given-less cells of a copy of
 * the grid that holds the givens only. A cell with one candidate is filled in
 * place; a cell with several candidates is handled by copying the grid once
 * per candidate, in ascending order, writing the candidate into the copy's
 * FIRST given-less cell, and keeping only the copy made for the last
 * candidate. The walk stops with a grid when no given-less cell follows the
 * one just written, and fails when a cell has no candidate.
 *
 * The walk does not always end (see README), so each step spends one unit of
 * `fuel`; running out is reported as `OutOfFuel`.
 */
module Backtracking {
  import opened Wrappers
  import opened Board
  import opened Sudoku

  /** How a walk ended: a dead end, a grid with every cell valued, or out of fuel. */
  datatype Outcome = Invalid | Valid(solution: SudokuGrid) | OutOfFuel

  /** The cells hold the givens `givens`. */
  ghost predicate HasGivens(b: Grid, givens: seq<Value>)
    requires |givens| == 81
  {
    forall i :: 0 <= i < 81 ==> b[i].initialValue == givens[i]
  }

  /** Every cell before `p`, row-major, holds a value. */
  ghost predicate FilledBefore(b: Grid, p: Pos) {
    forall i :: 0 <= i < Index(p) ==> b[i].GetValue() != 0
  }

  /**
   * Writing a digit into a given-less cell `p` behind which every cell is
   * valued: when no given-less cell follows, the board is complete; otherwise
   * the next given-less cell again has every cell before it valued.
   */
  lemma WriteAdvances(b: Grid, givens: seq<Value>, p: Pos, d: Value)
    requires |givens| == 81 && HasGivens(b, givens)
    requires givens[Index(p)] == 0 && FilledBefore(b, p) && d != 0
    ensures NextEmpty(givens, At(p)).None? ==> Complete(Write(b, p, d))
    ensures NextEmpty(givens, At(p)).Some? ==>
      givens[Index(NextEmpty(givens, At(p)).value)] == 0 &&
      FilledBefore(Write(b, p, d), NextEmpty(givens, At(p)).value)
  {
  }

  /** A grid whose only valued cells are its givens is valued up to its first given-less cell. */
  lemma FilledBeforeFirstEmpty(b: Grid, givens: seq<Value>)
    requires |givens| == 81 && HasGivens(b, givens) && FirstEmpty(givens).Some?
    ensures FilledBefore(b, FirstEmpty(givens).value)
  {
  }

  /** A given-less cell at `q` means there is a first one, no later than `q`. */
  lemma FirstEmptyNoLater(givens: seq<Value>, q: Pos)
    requires |givens| == 81 && givens[Index(q)] == 0
    ensures FirstEmpty(givens).Some? && Index(FirstEmpty(givens).value) <= Index(q)
  {
  }

  /** A grid without given-less cells holds a value in every cell. */
  lemma AllGivensComplete(b: Grid, givens: seq<Value>)
    requires |givens| == 81 && HasGivens(b, givens) && FirstEmpty(givens).None?
    ensures Complete(b)
  {
  }

  /** A snapshot of a grid without guesses is that grid: only givens carry values. */
  lemma SnapshotOfEmpty(initialValues: Layout)
    ensures Snapshot(Build(initialValues, [])) == Build(initialValues, [])
  {
    var b := Build(initialValues, []);
    forall i | 0 <= i < 81
      ensures Snapshot(b)[i] == b[i]
    {
    }
  }

  /** How the walk ends on cells alone: a dead end, the complete cells reached, or out of fuel. */
  datatype WalkEnd = DeadEnd | Reached(cells: Grid) | Exhausted

  /**
   * `_isSudokuValid` on the cells `b` of the grid it is given, at the
   * given-less cell `p`: no candidate is a dead end; one candidate is written
   * into `p` itself; several are written, each into a snapshot of `b` at the
   * first given-less cell, and the snapshot made for the last one is kept.
   */
  function Walk(b: Grid, givens: seq<Value>, p: Pos, fuel: nat): WalkEnd
    requires |givens| == 81 && givens[Index(p)] == 0
    decreases fuel, 1
  {
    var cands := Candidates(b, At(p));
    if cands == [] then DeadEnd
    else if |cands| == 1 then Resume(Write(b, p, cands[0]), givens, NextEmpty(givens, At(p)), fuel)
    else
      FirstEmptyNoLater(givens, p);
      var first := FirstEmpty(givens).value;
      Resume(Write(Snapshot(b), first, cands[|cands| - 1]), givens, NextEmpty(givens, At(first)), fuel)
  }

  /**
   * After a write: with no given-less cell left the cells written are the
   * result; otherwise the walk goes on at `next`, one unit of fuel later.
   */
  function Resume(b: Grid, givens: seq<Value>, next: Option<Pos>, fuel: nat): WalkEnd
    requires |givens| == 81 && (next.Some? ==> givens[Index(next.value)] == 0)
    decreases fuel, 0
  {
    if next.None? then Reached(b)
    else if fuel == 0 then Exhausted
    else Walk(b, givens, next.value, fuel - 1)
  }

  /**
   * When the first given-less cell is the only one, on cells that a snapshot
   * leaves as they are, the walk writes the largest candidate of that cell
   * into it and ends with those cells, whether there is one candidate or
   * several.
   */
  lemma WalkOnlyCell(b: Grid, givens: seq<Value>, p: Pos, fuel: nat)
    requires |givens| == 81 && FirstEmpty(givens) == Some(p) && NextEmpty(givens, At(p)) == None
    requires Snapshot(b) == b && Candidates(b, At(p)) != []
    ensures Walk(b, givens, p, fuel) == Reached(Write(b, p, Candidates(b, At(p))[|Candidates(b, At(p))| - 1]))
  {
  }

  /** A method's outcome is the same kind of end as the walk's end `w` (the cells of a grid found are compared apart). */
  predicate SameEnd(outcome: Outcome, w: WalkEnd) {
    (outcome == Invalid <==> w == DeadEnd) && (outcome == OutOfFuel <==> w == Exhausted)
  }

  /**
   * The walk can only move forward while a cell has a single candidate.
   * When several candidates send it to the given-less cell after the first
   * one, and that cell lies before `p`, behind which every cell is valued,
   * the cell already holds a value, has no candidate, and the walk ends
   * there as a dead end.
   */
  lemma ResumeBehindIsDeadEnd(b: Grid, givens: seq<Value>, p: Pos, fuel: nat)
    requires |givens| == 81 && givens[Index(p)] == 0 && FilledBefore(b, p)
    requires |Candidates(b, At(p))| >= 2 && fuel > 0
    requires FirstEmpty(givens).Some? && NextEmpty(givens, At(FirstEmpty(givens).value)).Some?
    requires Index(NextEmpty(givens, At(FirstEmpty(givens).value)).value) < Index(p)
    ensures Walk(b, givens, p, fuel) == DeadEnd
  {
    var cands := Candidates(b, At(p));
    var first := FirstEmpty(givens).value;
    var q := NextEmpty(givens, At(first)).value;
    var next := Write(Snapshot(b), first, cands[|cands| - 1]);
    WalkSeveral(b, givens, p, fuel);
    assert Index(first) < Index(q) < Index(p);
    assert next[Index(q)].GetValue() == b[Index(q)].GetValue();
    WalkAtValued(next, givens, q, fuel - 1);
  }

  /** With one candidate, the walk writes it into the cell itself and resumes at the next given-less cell. */
  lemma WalkSingle(b: Grid, givens: seq<Value>, p: Pos, fuel: nat)
    requires |givens| == 81 && givens[Index(p)] == 0 && |Candidates(b, At(p))| == 1
    ensures Walk(b, givens, p, fuel) == Resume(Write(b, p, Candidates(b, At(p))[0]), givens, NextEmpty(givens, At(p)), fuel)
  {
  }

  /** A cell with a single candidate, followed by a given-less cell: the walk goes on there with one unit less. */
  lemma WalkSingleOn(b: Grid, givens: seq<Value>, p: Pos, d: Value, q: Pos, fuel: nat)
    requires |givens| == 81 && givens[Index(p)] == 0 && givens[Index(q)] == 0
    requires Candidates(b, At(p)) == [d] && NextEmpty(givens, At(p)) == Some(q) && fuel > 0
    ensures Walk(b, givens, p, fuel) == Walk(Write(b, p, d), givens, q, fuel - 1)
  {
    WalkSingle(b, givens, p, fuel);
  }

  /** With fuel left, the walk resumes at the next given-less cell with one unit less. */
  lemma ResumeGoesOn(b: Grid, givens: seq<Value>, q: Pos, fuel: nat)
    requires |givens| == 81 && givens[Index(q)] == 0 && fuel > 0
    ensures Resume(b, givens, Some(q), fuel) == Walk(b, givens, q, fuel - 1)
  {
  }

  /** With several candidates, the walk goes on from the snapshot written at the first given-less cell. */
  lemma WalkSeveral(b: Grid, givens: seq<Value>, p: Pos, fuel: nat)
    requires |givens| == 81 && givens[Index(p)] == 0 && |Candidates(b, At(p))| >= 2
    ensures FirstEmpty(givens).Some?
    ensures Walk(b, givens, p, fuel) ==
      Resume(Write(Snapshot(b), FirstEmpty(givens).value, Candidates(b, At(p))[|Candidates(b, At(p))| - 1]),
        givens, NextEmpty(givens, At(FirstEmpty(givens).value)), fuel)
  {
    FirstEmptyNoLater(givens, p);
  }

  /** A cell that already holds a value has no candidate, so the walk ends there as a dead end. */
  lemma WalkAtValued(b: Grid, givens: seq<Value>, q: Pos, fuel: nat)
    requires |givens| == 81 && givens[Index(q)] == 0 && b[Index(q)].GetValue() != 0
    ensures Walk(b, givens, q, fuel) == DeadEnd
  {
  }

  /**
   * `nextGrid` is a copy of `currentGrid` with `value` in the first
   * given-less cell, and `nextCell` the given-less cell after that one.
   */
  ghost predicate GuessCopied(currentGrid: SudokuGrid, nextGrid: SudokuGrid, nextCell: Option<Pos>, value: Value)
    reads currentGrid, currentGrid.grid, nextGrid, nextGrid.grid
  {
    currentGrid.Valid() && FirstEmpty(GivensOf(currentGrid.initialValues)).Some? &&
    nextGrid.Valid() && nextGrid.initialValues == currentGrid.initialValues &&
    nextGrid.Cells() ==
      Write(Snapshot(currentGrid.Cells()), FirstEmpty(GivensOf(currentGrid.initialValues)).value, value) &&
    nextCell == NextEmpty(GivensOf(currentGrid.initialValues), At(FirstEmpty(GivensOf(currentGrid.initialValues)).value))
  }

  /**
   * The `forEach` callback for one candidate `value`: a fresh copy of
   * `currentGrid` gets `value` in its first given-less cell, and the next
   * given-less cell after that one is looked up.
   */
  method GuessInCopy(currentGrid: SudokuGrid, value: Value) returns (nextGrid: SudokuGrid, nextCell: Option<Pos>)
    requires currentGrid.Valid() && FirstEmpty(GivensOf(currentGrid.initialValues)).Some?
    ensures fresh(nextGrid.grid) && GuessCopied(currentGrid, nextGrid, nextCell, value)
  {
    nextGrid := currentGrid.GetCopy();
    var currentCellCopy := nextGrid.GetFirstEmptyCell();
    nextGrid.SetValue(currentCellCopy.value, value);
    nextCell := nextGrid.GetNextEmptyCell(At(currentCellCopy.value));
  }

  /**
   * The several-candidates branch, the source's `forEach`: the callback runs
   * for each candidate in turn, and each round replaces the previous copy, so
   * what remains is the copy made for the last, largest candidate. The
   * candidate goes into the copy's first given-less cell, not into
   * `currentCell`.
   */
  method CopyForEachGuess(currentGrid: SudokuGrid, currentCell: Pos, availableValues: seq<int>)
    returns (nextGrid: SudokuGrid, nextCell: Option<Pos>)
    requires currentGrid.Valid()
    requires GivensOf(currentGrid.initialValues)[Index(currentCell)] == 0
    requires availableValues != []
    requires forall i :: 0 <= i < |availableValues| ==> 1 <= availableValues[i] <= 9
    ensures FirstEmpty(GivensOf(currentGrid.initialValues)).Some?
    ensures nextGrid.Valid() && fresh(nextGrid.grid)
    ensures nextGrid.initialValues == currentGrid.initialValues
    ensures nextGrid.Cells() ==
      Write(Snapshot(currentGrid.Cells()), FirstEmpty(GivensOf(currentGrid.initialValues)).value,
        availableValues[|availableValues| - 1])
    ensures nextCell == NextEmpty(GivensOf(currentGrid.initialValues), At(FirstEmpty(GivensOf(currentGrid.initialValues)).value))
  {
    FirstEmptyNoLater(GivensOf(currentGrid.initialValues), currentCell);
    var k := 1;
    nextGrid, nextCell := GuessInCopy(currentGrid, availableValues[0]);
    while k < |availableValues|
      invariant 1 <= k <= |availableValues|
      invariant fresh(nextGrid.grid) && GuessCopied(currentGrid, nextGrid, nextCell, availableValues[k - 1])
    {
      nextGrid, nextCell := GuessInCopy(currentGrid, availableValues[k]);
      k := k + 1;
    }
  }

  /**
   * `_isSudokuValid(currentGrid, currentCell)`: `currentCell` is a given-less
   * cell of `currentGrid` behind which every cell is valued. A grid it returns
   * is complete and has the same givens; it is `currentGrid` itself or a grid
   * made during the walk. A cell without candidates (in particular a cell that
   * already has a value) ends the walk as a dead end. The two branches that
   * follow, one candidate or several, are `GuessInPlace` and `GuessInCopies`.
   */
  method IsSudokuValid(currentGrid: SudokuGrid, currentCell: Pos, fuel: nat) returns (outcome: Outcome)
    requires currentGrid.Valid()
    requires GivensOf(currentGrid.initialValues)[Index(currentCell)] == 0
    requires FilledBefore(currentGrid.Cells(), currentCell)
    modifies currentGrid.grid
    ensures currentGrid.Valid()
    ensures outcome.Valid? ==>
      outcome.solution.Valid() &&
      outcome.solution.initialValues == currentGrid.initialValues &&
      Complete(outcome.solution.Cells()) &&
      (outcome.solution == currentGrid || fresh(outcome.solution.grid))
    ensures Candidates(old(currentGrid.Cells()), At(currentCell)) == [] ==> outcome == Invalid
    ensures |Candidates(old(currentGrid.Cells()), At(currentCell))| != 1 ==>
      currentGrid.Cells() == old(currentGrid.Cells())
    ensures |Candidates(old(currentGrid.Cells()), At(currentCell))| == 1 ==>
      currentGrid.Cells()[Index(currentCell)] ==
        old(currentGrid.Cells())[Index(currentCell)].SetValue(Candidates(old(currentGrid.Cells()), At(currentCell))[0])
    ensures forall i :: 0 <= i < Index(currentCell) ==> currentGrid.Cells()[i] == old(currentGrid.Cells())[i]
    ensures (|Candidates(old(currentGrid.Cells()), At(currentCell))| == 1 &&
      NextEmpty(GivensOf(currentGrid.initialValues), At(currentCell)) == None) ==>
      outcome == Valid(currentGrid)
    ensures var cands := Candidates(old(currentGrid.Cells()), At(currentCell));
      var givens := GivensOf(currentGrid.initialValues);
      |cands| >= 2 && FirstEmpty(givens).Some? && NextEmpty(givens, At(FirstEmpty(givens).value)) == None ==>
        outcome.Valid? &&
        outcome.solution.Cells() == Write(Snapshot(old(currentGrid.Cells())), FirstEmpty(givens).value, cands[|cands| - 1])
    ensures var w := Walk(old(currentGrid.Cells()), GivensOf(currentGrid.initialValues), currentCell, fuel);
      SameEnd(outcome, w) && (outcome.Valid? ==> w == Reached(outcome.solution.Cells()))
    decreases fuel, 2
  {
    ghost var before := currentGrid.Cells();
    var availableValues := currentGrid.GetAvailableGuesses(At(currentCell));
    if |availableValues| == 0 {
      return Invalid;
    }
    // Each branch sets up the source's `nextGrid`/`nextCell` and runs the shared tail, `ContinueWalk`
    if |availableValues| == 1 {
      assert IsCandidate(before, currentCell, availableValues[0]);
      outcome := GuessInPlace(currentGrid, currentCell, availableValues[0], fuel);
    } else {
      forall i | 0 <= i < |availableValues|
        ensures 1 <= availableValues[i] <= 9
      {
        assert IsCandidate(before, currentCell, availableValues[i]);
      }
      outcome := GuessInCopies(currentGrid, currentCell, availableValues, fuel);
    }
  }

  /**
   * The single-candidate branch of `_isSudokuValid`: `value` goes into
   * `currentCell` of `currentGrid` itself, and the walk goes on at the next
   * given-less cell, or ends with `currentGrid` when there is none.
   */
  method GuessInPlace(currentGrid: SudokuGrid, currentCell: Pos, value: Value, fuel: nat) returns (outcome: Outcome)
    requires currentGrid.Valid()
    requires GivensOf(currentGrid.initialValues)[Index(currentCell)] == 0
    requires FilledBefore(currentGrid.Cells(), currentCell) && value != 0
    modifies currentGrid.grid
    ensures currentGrid.Valid()
    ensures outcome.Valid? ==>
      outcome.solution.Valid() &&
      outcome.solution.initialValues == currentGrid.initialValues &&
      Complete(outcome.solution.Cells()) &&
      (outcome.solution == currentGrid || fresh(outcome.solution.grid))
    ensures currentGrid.Cells()[Index(currentCell)] == old(currentGrid.Cells())[Index(currentCell)].SetValue(value)
    ensures forall i :: 0 <= i < Index(currentCell) ==> currentGrid.Cells()[i] == old(currentGrid.Cells())[i]
    ensures NextEmpty(GivensOf(currentGrid.initialValues), At(currentCell)) == None ==> outcome == Valid(currentGrid)
    ensures var w := Resume(Write(old(currentGrid.Cells()), currentCell, value), GivensOf(currentGrid.initialValues),
        NextEmpty(GivensOf(currentGrid.initialValues), At(currentCell)), fuel);
      SameEnd(outcome, w) && (outcome.Valid? ==> w == Reached(outcome.solution.Cells()))
    decreases fuel, 1
  {
    ghost var givens := GivensOf(currentGrid.initialValues);
    ghost var before := currentGrid.Cells();
    currentGrid.SetValue(currentCell, value);
    var nextCell := currentGrid.GetNextEmptyCell(At(currentCell));
    WriteAdvances(before, givens, currentCell, value);
    outcome := ContinueWalk(currentGrid, nextCell, fuel);
  }

  /**
   * The several-candidates branch of `_isSudokuValid`: the `forEach` leaves
   * the copy made for the last candidate, and the walk goes on in that copy,
   * or ends with it when no given-less cell follows the one written.
   * `currentGrid` is not changed.
   */
  method GuessInCopies(currentGrid: SudokuGrid, currentCell: Pos, availableValues: seq<int>, fuel: nat)
    returns (outcome: Outcome)
    requires currentGrid.Valid()
    requires GivensOf(currentGrid.initialValues)[Index(currentCell)] == 0
    requires availableValues != []
    requires forall i :: 0 <= i < |availableValues| ==> 1 <= availableValues[i] <= 9
    ensures outcome.Valid? ==>
      outcome.solution.Valid() &&
      outcome.solution.initialValues == currentGrid.initialValues &&
      Complete(outcome.solution.Cells()) && fresh(outcome.solution.grid)
    ensures var givens := GivensOf(currentGrid.initialValues);
      FirstEmpty(givens).Some? && NextEmpty(givens, At(FirstEmpty(givens).value)) == None ==>
        outcome.Valid? &&
        outcome.solution.Cells() ==
          Write(Snapshot(currentGrid.Cells()), FirstEmpty(givens).value, availableValues[|availableValues| - 1])
    ensures var givens := GivensOf(currentGrid.initialValues);
      FirstEmpty(givens).Some? &&
      var w := Resume(Write(Snapshot(currentGrid.Cells()), FirstEmpty(givens).value, availableValues[|availableValues| - 1]),
        givens, NextEmpty(givens, At(FirstEmpty(givens).value)), fuel);
      SameEnd(outcome, w) && (outcome.Valid? ==> w == Reached(outcome.solution.Cells()))
    decreases fuel, 1
  {
    ghost var givens := GivensOf(currentGrid.initialValues);
    var nextGrid, nextCell := CopyForEachGuess(currentGrid, currentCell, availableValues);
    FilledBeforeFirstEmpty(Snapshot(currentGrid.Cells()), givens);
    WriteAdvances(Snapshot(currentGrid.Cells()), givens, FirstEmpty(givens).value, availableValues[|availableValues| - 1]);
    outcome := ContinueWalk(nextGrid, nextCell, fuel);
  }

  /**
   * The tail both branches of `_isSudokuValid` share: without a next cell,
   * `nextGrid` is complete and is the grid found; otherwise the walk goes on
   * in `nextGrid` at `nextCell`.
   */
  method ContinueWalk(nextGrid: SudokuGrid, nextCell: Option<Pos>, fuel: nat) returns (outcome: Outcome)
    requires nextGrid.Valid()
    requires nextCell.None? ==> Complete(nextGrid.Cells())
    requires nextCell.Some? ==>
      GivensOf(nextGrid.initialValues)[Index(nextCell.value)] == 0 && FilledBefore(nextGrid.Cells(), nextCell.value)
    modifies nextGrid.grid
    ensures nextGrid.Valid()
    ensures outcome.Valid? ==>
      outcome.solution.Valid() &&
      outcome.solution.initialValues == nextGrid.initialValues &&
      Complete(outcome.solution.Cells()) &&
      (outcome.solution == nextGrid || fresh(outcome.solution.grid))
    ensures nextCell.None? ==> outcome == Valid(nextGrid) && nextGrid.Cells() == old(nextGrid.Cells())
    ensures nextCell.Some? ==>
      forall i :: 0 <= i < Index(nextCell.value) ==> nextGrid.Cells()[i] == old(nextGrid.Cells())[i]
    ensures var w := Resume(old(nextGrid.Cells()), GivensOf(nextGrid.initialValues), nextCell, fuel);
      SameEnd(outcome, w) && (outcome.Valid? ==> w == Reached(outcome.solution.Cells()))
    decreases fuel, 0
  {
    if nextCell.None? {
      return Valid(nextGrid);
    }
    if fuel == 0 {
      return OutOfFuel;
    }
    ResumeGoesOn(nextGrid.Cells(), GivensOf(nextGrid.initialValues), nextCell.value, fuel);
    outcome := IsSudokuValid(nextGrid, nextCell.value, fuel - 1);
  }

  /**
   * `backtracking(grid)`: the walk runs on a copy of `grid` holding its givens
   * only, so `grid` itself is never changed and its guesses play no part. A
   * grid without given-less cells is returned as it is. At most one grid is
   * found; `finished` is false when the fuel ran out before the walk ended.
   */
  method Backtracking(grid: SudokuGrid, fuel: nat) returns (solutions: seq<SudokuGrid>, finished: bool)
    requires grid.Valid()
    ensures FirstEmpty(GivensOf(grid.initialValues)) == None ==> solutions == [grid] && finished
    ensures (FirstEmpty(GivensOf(grid.initialValues)).Some? &&
      Candidates(Build(grid.initialValues, []), At(FirstEmpty(GivensOf(grid.initialValues)).value)) == []) ==>
      solutions == [] && finished
    ensures |solutions| <= 1
    ensures !finished ==> solutions == []
    ensures forall s :: s in solutions ==>
      s.Valid() && s.initialValues == grid.initialValues && Complete(s.Cells())
    ensures forall s :: s in solutions && s != grid ==> fresh(s.grid)
    ensures var givens := GivensOf(grid.initialValues);
      FirstEmpty(givens).Some? ==>
        var w := Walk(Build(grid.initialValues, []), givens, FirstEmpty(givens).value, fuel);
        (w == DeadEnd ==> solutions == [] && finished) &&
        (w == Exhausted ==> solutions == [] && !finished) &&
        (w.Reached? ==> finished && |solutions| == 1 && solutions[0].Valid() && solutions[0].Cells() == w.cells)
    ensures var givens := GivensOf(grid.initialValues);
      FirstEmpty(givens).Some? ==>
        var first := FirstEmpty(givens).value;
        var empty := Build(grid.initialValues, []);
        var cands := Candidates(empty, At(first));
        cands != [] && NextEmpty(givens, At(first)) == None ==>
          finished && |solutions| == 1 && solutions[0].Valid() &&
          solutions[0].Cells() == Write(empty, first, cands[|cands| - 1])
  {
    var emptyGrid := grid.GetEmptyCopy();
    var firstCell := emptyGrid.GetFirstEmptyCell();
    if firstCell.None? {
      AllGivensComplete(grid.Cells(), GivensOf(grid.initialValues));
      return [grid], true;
    }
    FilledBeforeFirstEmpty(emptyGrid.Cells(), GivensOf(grid.initialValues));
    SnapshotOfEmpty(grid.initialValues);
    if Candidates(emptyGrid.Cells(), At(firstCell.value)) != [] && NextEmpty(GivensOf(grid.initialValues), At(firstCell.value)) == None {
      WalkOnlyCell(emptyGrid.Cells(), GivensOf(grid.initialValues), firstCell.value, fuel);
    }
    var outcome := IsSudokuValid(emptyGrid, firstCell.value, fuel);
    match outcome
    case Invalid => solutions, finished := [], true;
    case Valid(solution) => solutions, finished := [solution], true;
    case OutOfFuel => solutions, finished := [], false;
  }
}

/**
 * The search `backtracking.tsx` describes in its header comment: every
 * candidate of the current cell is written into that cell of its own copy of
 * the grid, every copy is searched on, and every complete grid found is
 * returned. Positions only move forward, so the search ends without fuel.
 */
module CorrectedBacktracking {
  import opened Wrappers
  import opened Board
  import opened Sudoku
  import opened Backtracking

  /** Boards with the same effective values have the same candidates and the same consistency. */
  lemma SameValuesAgree(a: Grid, b: Grid)
    requires forall i :: 0 <= i < 81 ==> a[i].GetValue() == b[i].GetValue()
    ensures forall p: Pos, d :: IsCandidate(a, p, d) <==> IsCandidate(b, p, d)
    ensures Consistent(a) <==> Consistent(b)
  {
    assert forall row, col :: 0 <= row < 9 && 0 <= col < 9 ==> ValueAt(a, row, col) == ValueAt(b, row, col);
    assert forall p: Pos, i, j :: 0 <= i < 3 && 0 <= j < 3 ==> BoxValue(a, p, i, j) == BoxValue(b, p, i, j);
  }

  /**
   * Writing candidate `d` of the current cell into that cell of a copy: the
   * copy extends the board, and on a board without a repeated digit it has
   * none either.
   */
  lemma GuessKeepsRules(b: Grid, p: Pos, d: Value)
    requires b[Index(p)].initialValue == 0 && b[Index(p)].GetValue() == 0 && IsCandidate(b, p, d)
    ensures Extends(b, Write(Snapshot(b), p, d))
    ensures Consistent(b) ==> Consistent(Write(Snapshot(b), p, d))
  {
    SameValuesAgree(b, Snapshot(b));
    if Consistent(b) {
      CandidateIffConsistentFill(Snapshot(b), p, d);
    }
  }

  /**
   * `s` is a grid the search may return when started from the cells
   * `before`: it has the givens of `initialValues`, a value in every cell and
   * every value `before` had, and it is a solution when `before` repeated no
   * digit.
   */
  ghost predicate FoundFrom(before: Grid, initialValues: Layout, s: SudokuGrid)
    reads s, s.grid
  {
    s.Valid() && s.initialValues == initialValues &&
    Complete(s.Cells()) && Extends(before, s.Cells()) &&
    (Consistent(before) ==> IsSolution(s.Cells()))
  }

  /** A grid found from a board that extends `before` (and keeps its rules) is found from `before`. */
  lemma FoundFromEarlier(before: Grid, next: Grid, initialValues: Layout, s: SudokuGrid)
    requires Extends(before, next) && (Consistent(before) ==> Consistent(next))
    requires FoundFrom(next, initialValues, s)
    ensures FoundFrom(before, initialValues, s)
  {
  }

  /**
   * The search from a given-less cell `currentCell` of `currentGrid`, behind
   * which every cell is valued: every grid returned is new and found from the
   * grid's cells. `currentGrid` itself is not changed.
   */
  method SearchFrom(currentGrid: SudokuGrid, currentCell: Pos) returns (solutions: seq<SudokuGrid>)
    requires currentGrid.Valid()
    requires GivensOf(currentGrid.initialValues)[Index(currentCell)] == 0
    requires FilledBefore(currentGrid.Cells(), currentCell)
    ensures forall s :: s in solutions ==>
      fresh(s.grid) && FoundFrom(currentGrid.Cells(), currentGrid.initialValues, s)
    decreases 81 - Index(currentCell), 1
  {
    var availableValues := currentGrid.GetAvailableGuesses(At(currentCell));
    solutions := [];
    for k := 0 to |availableValues|
      invariant forall s :: s in solutions ==>
        fresh(s.grid) && FoundFrom(currentGrid.Cells(), currentGrid.initialValues, s)
    {
      assert RefValue(currentGrid.Cells(), At(currentCell)) == 0;
      assert IsCandidate(currentGrid.Cells(), currentCell, availableValues[k]);
      var found := SearchGuess(currentGrid, currentCell, availableValues[k]);
      solutions := solutions + found;
    }
  }

  /**
   * One candidate `value` of `currentCell`: it goes into that cell of a
   * fresh copy, which is a find when no given-less cell follows and is
   * searched on otherwise.
   */
  method SearchGuess(currentGrid: SudokuGrid, currentCell: Pos, value: Value) returns (found: seq<SudokuGrid>)
    requires currentGrid.Valid()
    requires GivensOf(currentGrid.initialValues)[Index(currentCell)] == 0
    requires FilledBefore(currentGrid.Cells(), currentCell)
    requires currentGrid.Cells()[Index(currentCell)].GetValue() == 0
    requires IsCandidate(currentGrid.Cells(), currentCell, value)
    ensures forall s :: s in found ==>
      fresh(s.grid) && FoundFrom(currentGrid.Cells(), currentGrid.initialValues, s)
    decreases 81 - Index(currentCell), 0
  {
    ghost var givens := GivensOf(currentGrid.initialValues);
    ghost var before := currentGrid.Cells();
    var nextGrid := currentGrid.GetCopy();
    nextGrid.SetValue(currentCell, value);
    GuessKeepsRules(before, currentCell, value);
    ghost var next := nextGrid.Cells();
    assert FilledBefore(Snapshot(before), currentCell);
    WriteAdvances(Snapshot(before), givens, currentCell, value);
    var nextCell := nextGrid.GetNextEmptyCell(At(currentCell));
    if nextCell.None? {
      if Consistent(before) {
        CompleteConsistentIsSolution(next);
      }
      found := [nextGrid];
    } else {
      found := SearchFrom(nextGrid, nextCell.value);
      forall s | s in found
        ensures FoundFrom(before, currentGrid.initialValues, s)
      {
        FoundFromEarlier(before, next, currentGrid.initialValues, s);
      }
    }
  }

  /**
   * `backtracking` as intended: the search runs on the givens-only copy, so a
   * puzzle whose givens repeat no digit yields solutions only; a grid without
   * given-less cells is returned as it is.
   */
  method BacktrackingAllSolutions(grid: SudokuGrid) returns (solutions: seq<SudokuGrid>)
    requires grid.Valid()
    ensures FirstEmpty(GivensOf(grid.initialValues)) == None ==> solutions == [grid]
    ensures forall s :: s in solutions ==>
      s.Valid() && s.initialValues == grid.initialValues && Complete(s.Cells())
    ensures Consistent(Build(grid.initialValues, [])) ==>
      forall s :: s in solutions ==> IsSolution(s.Cells())
  {
    var emptyGrid := grid.GetEmptyCopy();
    var firstCell := emptyGrid.GetFirstEmptyCell();
    if firstCell.None? {
      AllGivensComplete(grid.Cells(), GivensOf(grid.initialValues));
      SameValuesAgree(grid.Cells(), emptyGrid.Cells());
      if Consistent(emptyGrid.Cells()) {
        CompleteConsistentIsSolution(grid.Cells());
      }
      return [grid];
    }
    FilledBeforeFirstEmpty(emptyGrid.Cells(), GivensOf(grid.initialValues));
    solutions := SearchFrom(emptyGrid, firstCell.value);
  }
}
