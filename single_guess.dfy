/**
 * `fillSingleGuesses`: fills, in place, every cell whose candidate set has a
 * single member. After a fill the scan restarts at the grid's first
 * given-less cell; after a skip it moves on to the next given-less cell.
 * The source's tail-recursive inner scan is the loop below, its boolean
 * accumulator `filledPreviousCell` the variable `filled`.
 */
module SingleGuess {
  import opened Wrappers
  import opened Board
  import opened Sudoku

  /** Row-major index the scan has reached; 81 once it has run off the end. */
  function ScanIndex(current: Option<Pos>): nat {
    if current.Some? then Index(current.value) else 81
  }

  /** Every cell that had a value still holds the same cell. */
  ghost predicate KeepsValued(before: Grid, after: Grid) {
    forall i :: 0 <= i < 81 && before[i].GetValue() != 0 ==> after[i] == before[i]
  }

  /** No cell of the board has exactly one candidate: propagation has nothing left to do. */
  ghost predicate NoSingleCandidate(b: Grid) {
    forall p: Pos :: |Candidates(b, At(p))| != 1
  }

  /** Every given-less cell before index `k` has a candidate count other than one. */
  ghost predicate ScannedUpTo(b: Grid, givens: seq<Value>, k: nat)
    requires |givens| == 81
  {
    forall i :: 0 <= i < k && i < 81 && givens[i] == 0 ==> |Candidates(b, At(PosOf(i)))| != 1
  }

  /** Skipping a cell without a single candidate extends the scanned prefix to the next given-less cell. */
  lemma ScanSkip(b: Grid, givens: seq<Value>, p: Pos)
    requires |givens| == 81
    requires ScannedUpTo(b, givens, Index(p)) && |Candidates(b, At(p))| != 1
    ensures ScannedUpTo(b, givens, ScanIndex(NextEmpty(givens, At(p))))
  {
    var next := NextEmpty(givens, At(p));
    forall i | 0 <= i < ScanIndex(next) && i < 81 && givens[i] == 0
      ensures |Candidates(b, At(PosOf(i)))| != 1
    {
      if i == Index(p) {
        PosOfIndex(p);
      } else {
        assert i < Index(p);
      }
    }
  }

  /** Before the first given-less cell there is nothing to scan. */
  lemma ScanRestart(b: Grid, givens: seq<Value>)
    requires |givens| == 81
    ensures ScannedUpTo(b, givens, ScanIndex(FirstEmpty(givens)))
  {
  }

  /** A scan that ran off the end leaves no cell with a single candidate. */
  lemma ScanComplete(b: Grid, givens: seq<Value>)
    requires |givens| == 81
    requires forall i :: 0 <= i < 81 ==> b[i].initialValue == givens[i]
    requires ScannedUpTo(b, givens, 81)
    ensures NoSingleCandidate(b)
  {
    forall q: Pos
      ensures |Candidates(b, At(q))| != 1
    {
      PosOfIndex(q);
    }
  }

  /**
   * The cells after filling the positions `fills` in order, each with the
   * single candidate it has on the cells filled so far; none when one of
   * them does not have exactly one candidate there.
   */
  function Propagated(b: Grid, fills: seq<Pos>): Option<Grid>
    decreases |fills|
  {
    if fills == [] then Some(b)
    else
      var last := fills[|fills| - 1];
      match Propagated(b, fills[..|fills| - 1])
      case None => None
      case Some(c) =>
        var cands := Candidates(c, At(last));
        if |cands| == 1 then Some(Write(c, last, cands[0])) else None
  }

  /** One more fill of a cell with a single candidate extends the log. */
  lemma PropagateStep(b: Grid, fills: seq<Pos>, c: Grid, p: Pos, d: Value)
    requires Propagated(b, fills) == Some(c) && Candidates(c, At(p)) == [d]
    ensures Propagated(b, fills + [p]) == Some(Write(c, p, d))
  {
    assert (fills + [p])[..|fills|] == fills;
  }

  /**
   * Propagation is sound: every solution that extends the starting cells
   * extends the cells after any run of single-candidate fills.
   */
  lemma {:induction false} PropagatedSound(b: Grid, fills: seq<Pos>, s: Grid)
    requires Propagated(b, fills).Some? && IsSolution(s) && Extends(b, s)
    ensures Extends(Propagated(b, fills).value, s)
    decreases |fills|
  {
    if fills != [] {
      var init := fills[..|fills| - 1];
      PropagatedSound(b, init, s);
      SoleCandidateSound(Propagated(b, init).value, fills[|fills| - 1], s);
    }
  }

  /** `PropagatedSound` for every solution at once. */
  lemma PropagatedSoundAll(b: Grid, fills: seq<Pos>)
    requires Propagated(b, fills).Some?
    ensures forall s :: IsSolution(s) && Extends(b, s) ==> Extends(Propagated(b, fills).value, s)
  {
    forall s | IsSolution(s) && Extends(b, s)
      ensures Extends(Propagated(b, fills).value, s)
    {
      PropagatedSound(b, fills, s);
    }
  }

  /**
   * Filling the single candidate of a cell keeps every value of `start` the
   * board kept, keeps it free of repeated digits when `start` was, and leaves
   * one cell fewer without a value.
   */
  lemma FillKeeps(start: Grid, before: Grid, p: Pos, d: Value)
    requires KeepsValued(start, before) && (Consistent(start) ==> Consistent(before))
    requires |Candidates(before, At(p))| == 1 && d == Candidates(before, At(p))[0]
    ensures KeepsValued(start, Write(before, p, d))
    ensures Consistent(start) ==> Consistent(Write(before, p, d))
    ensures UnvaluedCount(Write(before, p, d)) < UnvaluedCount(before)
  {
    assert IsCandidate(before, p, d);
    UnvaluedCountFill(before, Index(p), before[Index(p)].SetValue(d));
    if Consistent(start) {
      CandidateIffConsistentFill(before, p, d);
    }
  }

  /**
   * What a run of fills keeps of the cells `start` it began on: their
   * values, their consistency, and a fill log that leads to `cells`.
   */
  ghost predicate FilledFrom(start: Grid, cells: Grid, fills: seq<Pos>) {
    KeepsValued(start, cells) && (Consistent(start) ==> Consistent(cells)) &&
    Propagated(start, fills) == Some(cells)
  }

  /** Filling the single candidate `d` of `p` keeps `FilledFrom` and lowers the valueless count. */
  lemma FillStep(start: Grid, cells: Grid, fills: seq<Pos>, p: Pos, d: Value)
    requires FilledFrom(start, cells, fills) && Candidates(cells, At(p)) == [d]
    ensures FilledFrom(start, Write(cells, p, d), fills + [p])
    ensures UnvaluedCount(Write(cells, p, d)) < UnvaluedCount(cells)
  {
    FillKeeps(start, cells, p, d);
    PropagateStep(start, fills, cells, p, d);
  }

  /**
   * One step of the scan at the given-less cell `p`: a single candidate is
   * written and the scan restarts at the first given-less cell; otherwise the
   * cells stay as they are and the scan moves to the next given-less cell.
   */
  method ScanStep(g: SudokuGrid, p: Pos, ghost start: Grid, ghost givens: seq<Value>, ghost fills: seq<Pos>)
    returns (next: Option<Pos>, filled: bool, ghost fills': seq<Pos>)
    requires g.Valid() && givens == GivensOf(g.initialValues) && givens[Index(p)] == 0
    requires ScannedUpTo(g.Cells(), givens, Index(p)) && FilledFrom(start, g.Cells(), fills)
    modifies g.grid
    ensures g.Valid()
    ensures next.Some? ==> givens[Index(next.value)] == 0
    ensures filled ==> next == FirstEmpty(givens)
    ensures ScannedUpTo(g.Cells(), givens, ScanIndex(next))
    ensures FilledFrom(start, g.Cells(), fills')
    ensures filled ==> UnvaluedCount(g.Cells()) < old(UnvaluedCount(g.Cells()))
    ensures filled <==> |Candidates(old(g.Cells()), At(p))| == 1
    ensures filled ==> g.Cells() == Write(old(g.Cells()), p, Candidates(old(g.Cells()), At(p))[0]) && fills' == fills + [p]
    ensures !filled ==> g.Cells() == old(g.Cells()) && fills' == fills && next == NextEmpty(givens, At(p))
    ensures !filled ==> Index(p) < ScanIndex(next)
  {
    ghost var cells := g.Cells();
    var availableGuesses := g.GetAvailableGuesses(At(p));
    if |availableGuesses| == 1 {
      assert availableGuesses == [availableGuesses[0]];
      FillStep(start, cells, fills, p, availableGuesses[0]);
      fills' := fills + [p];
      g.SetValue(p, availableGuesses[0]);
      next := g.GetFirstEmptyCell();
      filled := true;
      ScanRestart(g.Cells(), givens);
    } else {
      ScanSkip(cells, givens, p);
      next := g.GetNextEmptyCell(At(p));
      filled := false;
      fills' := fills;
    }
  }

  /**
   * The flag is true exactly when the grid had no given-less cell at entry:
   * after a fill the scan restarts at a given-less cell (the one just filled
   * is one), so it can only reach the end through a skip, which clears the
   * flag. The ghost `fills` logs the cells written, in order.
   */
  method FillSingleGuesses(g: SudokuGrid) returns (solved: bool, ghost fills: seq<Pos>)
    requires g.Valid()
    modifies g.grid
    ensures g.Valid()
    ensures Propagated(old(g.Cells()), fills) == Some(g.Cells())
    ensures forall s :: IsSolution(s) && Extends(old(g.Cells()), s) ==> Extends(g.Cells(), s)
    ensures solved <==> FirstEmpty(GivensOf(g.initialValues)) == None
    ensures solved ==> g.Cells() == old(g.Cells())
    ensures KeepsValued(old(g.Cells()), g.Cells())
    ensures Consistent(old(g.Cells())) ==> Consistent(g.Cells())
    ensures NoSingleCandidate(g.Cells())
  {
    ghost var givens := GivensOf(g.initialValues);
    ghost var start := g.Cells();
    var current := g.GetFirstEmptyCell();
    var filled := true;
    fills := [];
    while current.Some?
      invariant g.Valid()
      invariant current.Some? ==> givens[Index(current.value)] == 0
      invariant filled ==> current == FirstEmpty(givens)
      invariant FirstEmpty(givens) == None ==> filled && g.Cells() == start
      invariant ScannedUpTo(g.Cells(), givens, ScanIndex(current))
      invariant FilledFrom(start, g.Cells(), fills)
      decreases UnvaluedCount(g.Cells()), 81 - ScanIndex(current)
    {
      current, filled, fills := ScanStep(g, current.value, start, givens, fills);
    }
    solved := filled;
    ScanComplete(g.Cells(), givens);
    PropagatedSoundAll(start, fills);
  }

  /**
   * The propagation with the flag the source's doc comment describes: true
   * exactly when the grid, changed in place, ends fully valued. On a grid
   * that had no repeated digit, a true flag means the grid is solved.
   */
  method FillSingleGuessesReportingSolved(g: SudokuGrid) returns (solved: bool, ghost fills: seq<Pos>)
    requires g.Valid()
    modifies g.grid
    ensures g.Valid()
    ensures Propagated(old(g.Cells()), fills) == Some(g.Cells())
    ensures forall s :: IsSolution(s) && Extends(old(g.Cells()), s) ==> Extends(g.Cells(), s)
    ensures solved <==> Complete(g.Cells())
    ensures solved ==> forall s: Grid :: IsSolution(s) && Extends(old(g.Cells()), s) ==>
      forall i :: 0 <= i < 81 ==> g.Cells()[i].GetValue() == s[i].GetValue()
    ensures KeepsValued(old(g.Cells()), g.Cells())
    ensures Consistent(old(g.Cells())) ==> Consistent(g.Cells())
    ensures Consistent(old(g.Cells())) && solved ==> IsSolution(g.Cells())
    ensures NoSingleCandidate(g.Cells())
  {
    var asWritten;
    asWritten, fills := FillSingleGuesses(g);
    solved := Complete(g.Cells());
    if Consistent(old(g.Cells())) && solved {
      CompleteConsistentIsSolution(g.Cells());
    }
  }
}
