/**
 * `SudokuGrid`: 81 cells, row-major, in an array whose cells the solvers
 * update in place, and the construction layout the grid was built from.
 * A cell is addressed by its position (`CellRef.At`), where the source
 * compares cell objects by identity.
 */
module Sudoku {
  import opened Wrappers
  import opened Board
  import opened Text

  /**
   * `findCellPosition`: the position of a cell of the grid, none for a
   * foreign cell. It reads no state of the grid, since a cell of the grid
   * is addressed by its position.
   */
  function FindCellPosition(cell: CellRef): (r: Option<Pos>)
    ensures r.Some? <==> cell.At?
    ensures r.Some? ==> r.value == cell.pos
  {
    match cell
    case At(p) => Some(p)
    case Foreign(_) => None
  }

  class SudokuGrid {
    /** The cells, row-major: `grid[9 * row + col]`. */
    const grid: array<Cell>
    /** The layout the givens were built from, kept for `GetEmptyCopy`. */
    const initialValues: Layout

    /** Every cell's given is the one the construction layout names. */
    ghost predicate Valid()
      reads this, grid
    {
      grid.Length == 81 &&
      forall i :: 0 <= i < 81 ==> grid[i].initialValue == GivensOf(initialValues)[i]
    }

    /** The current cells. */
    function Cells(): Grid
      requires Valid()
      reads this, grid
    {
      grid[..]
    }

    /**
     * `new SudokuGrid(initialValues, values)`: 9 rows of 9 cells; an entry
     * that is 0 or missing is `null` in either layer, and a cell with a given
     * starts without a guess.
     */
    constructor(initialValues: Layout, values: Layout)
      ensures Valid() && fresh(grid)
      ensures this.initialValues == initialValues
      ensures Cells() == Build(initialValues, values)
    {
      var cells := new Cell[81];
      for row := 0 to 9
        invariant forall i :: 0 <= i < 9 * row ==> cells[i] == Build(initialValues, values)[i]
      {
        for col := 0 to 9
          invariant forall i :: 0 <= i < 9 * row + col ==> cells[i] == Build(initialValues, values)[i]
        {
          assert (9 * row + col) / 9 == row && (9 * row + col) % 9 == col;
          cells[9 * row + col] := NewCell(Entry(initialValues, row, col), Entry(values, row, col));
        }
      }
      grid := cells;
      this.initialValues := initialValues;
    }

    /** `setValue` on the cell at `p`: only its guess changes. */
    method SetValue(p: Pos, v: Value)
      requires Valid()
      modifies grid
      ensures Valid()
      ensures Cells() == Write(old(Cells()), p, v)
    {
      grid[Index(p)] := grid[Index(p)].SetValue(v);
    }

    /**
     * `getFirstEmptyCell`: the first cell in row-major order whose given is
     * null, guess or no guess; none when every cell is a given.
     */
    method GetFirstEmptyCell() returns (r: Option<Pos>)
      requires Valid()
      ensures r == FirstEmpty(GivensOf(initialValues))
    {
      for row: int := 0 to 9
        invariant forall i :: 0 <= i < 9 * row ==> grid[i].initialValue != 0
      {
        for col: int := 0 to 9
          invariant forall i :: 0 <= i < 9 * row + col ==> grid[i].initialValue != 0
        {
          if grid[9 * row + col].initialValue == 0 {
            FirstEmptyFromUnique(GivensOf(initialValues), 0, Pos(row, col));
            return Some(Pos(row, col));
          }
        }
      }
      return None;
    }

    /**
     * `getNextEmptyCell`: the first given-less cell strictly after `cell` in
     * row-major order; none when there is none or `cell` is not in this grid.
     */
    method GetNextEmptyCell(cell: CellRef) returns (r: Option<Pos>)
      requires Valid()
      ensures r == NextEmpty(GivensOf(initialValues), cell)
    {
      var cellPosition := FindCellPosition(cell);
      if cellPosition.None? {
        return None;
      }
      ghost var start := Index(cellPosition.value) + 1;
      var rowCurrent, colCurrent := cellPosition.value.row, cellPosition.value.col;
      for row: int := rowCurrent to 9
        invariant forall i :: start <= i < 9 * row ==> grid[i].initialValue != 0
      {
        for col: int := 0 to 9
          invariant forall i :: start <= i < 9 * row + col ==> grid[i].initialValue != 0
        {
          if row == rowCurrent && col <= colCurrent {
            continue;
          }
          if grid[9 * row + col].initialValue == 0 {
            FirstEmptyFromUnique(GivensOf(initialValues), start, Pos(row, col));
            return Some(Pos(row, col));
          }
        }
      }
      return None;
    }

    /** `getEmptyCopy`: a new grid with the same givens and no guesses. */
    method GetEmptyCopy() returns (copy: SudokuGrid)
      ensures fresh(copy) && fresh(copy.grid) && copy.Valid()
      ensures copy.initialValues == initialValues
      ensures copy.Cells() == Build(initialValues, [])
    {
      copy := new SudokuGrid(initialValues, []);
    }

    /**
     * `getCopy`: a new, independent grid with the same givens, whose guesses
     * are this grid's current effective values.
     */
    method GetCopy() returns (copy: SudokuGrid)
      requires Valid()
      ensures fresh(copy) && fresh(copy.grid) && copy.Valid()
      ensures copy.initialValues == initialValues
      ensures copy.Cells() == Snapshot(Cells())
    {
      var currentValues: Layout := [];
      for row: int := 0 to 9
        invariant |currentValues| == row
        invariant forall r :: 0 <= r < row ==> |currentValues[r]| == 9
        invariant forall r, c :: 0 <= r < row && 0 <= c < 9 ==>
          currentValues[r][c] == grid[9 * r + c].GetValue()
      {
        var currentRow: seq<Value> := [];
        for col: int := 0 to 9
          invariant |currentRow| == col
          invariant forall c :: 0 <= c < col ==> currentRow[c] == grid[9 * row + c].GetValue()
        {
          currentRow := currentRow + [grid[9 * row + col].GetValue()];
        }
        currentValues := currentValues + [currentRow];
      }
      copy := new SudokuGrid(initialValues, currentValues);
      forall i | 0 <= i < 81
        ensures copy.Cells()[i] == Snapshot(Cells())[i]
      {
        assert 9 * (i / 9) + i % 9 == i;
      }
    }

    /** `getAvailableGuessesInRow`: the digits missing from the cell's row. */
    method GetAvailableGuessesInRow(cell: CellRef) returns (s: seq<int>)
      requires Valid()
      ensures Increasing(s)
      ensures cell.Foreign? || RefValue(Cells(), cell) != 0 ==> s == []
      ensures cell.At? && RefValue(Cells(), cell) == 0 ==>
        forall d :: d in s <==> 1 <= d <= 9 && !InRow(Cells(), cell.pos.row, d)
    {
      if RefValue(Cells(), cell) != 0 {
        return [];
      }
      var cellPosition := FindCellPosition(cell);
      if cellPosition.None? {
        return [];
      }
      ghost var b := Cells();
      s := [1, 2, 3, 4, 5, 6, 7, 8, 9];
      var row := cellPosition.value.row;
      for col: int := 0 to 9
        invariant s == RowMissing(b, row, col)
      {
        var currentValue := grid[9 * row + col].GetValue();
        assert ValueAt(b, row, col) == currentValue;
        if currentValue != 0 {
          s := Delete(s, currentValue);
        }
      }
      RowMissingAll(b, row);
    }

    /** `getAvailableGuessesInCol`: the digits missing from the cell's column. */
    method GetAvailableGuessesInCol(cell: CellRef) returns (s: seq<int>)
      requires Valid()
      ensures Increasing(s)
      ensures cell.Foreign? || RefValue(Cells(), cell) != 0 ==> s == []
      ensures cell.At? && RefValue(Cells(), cell) == 0 ==>
        forall d :: d in s <==> 1 <= d <= 9 && !InCol(Cells(), cell.pos.col, d)
    {
      if RefValue(Cells(), cell) != 0 {
        return [];
      }
      var cellPosition := FindCellPosition(cell);
      if cellPosition.None? {
        return [];
      }
      ghost var b := Cells();
      s := [1, 2, 3, 4, 5, 6, 7, 8, 9];
      var col := cellPosition.value.col;
      for row: int := 0 to 9
        invariant s == ColMissing(b, col, row)
      {
        var currentValue := grid[9 * row + col].GetValue();
        assert ValueAt(b, row, col) == currentValue;
        if currentValue != 0 {
          s := Delete(s, currentValue);
        }
      }
      ColMissingAll(b, col);
    }

    /** `getAvailableGuessesInBox`: the digits missing from the cell's 3x3 box. */
    method GetAvailableGuessesInBox(cell: CellRef) returns (s: seq<int>)
      requires Valid()
      ensures Increasing(s)
      ensures cell.Foreign? || RefValue(Cells(), cell) != 0 ==> s == []
      ensures cell.At? && RefValue(Cells(), cell) == 0 ==>
        forall d :: d in s <==> 1 <= d <= 9 && !InBox(Cells(), cell.pos, d)
    {
      if RefValue(Cells(), cell) != 0 {
        return [];
      }
      var cellPosition := FindCellPosition(cell);
      if cellPosition.None? {
        return [];
      }
      ghost var b := Cells();
      s := [1, 2, 3, 4, 5, 6, 7, 8, 9];
      var p := cellPosition.value;
      // 3 * floor(row / 3) and 3 * floor(col / 3) (BoxStartIsFloor); the scan runs over
      // rows startRow + i and columns startCol + j
      var startRow: int := BoxStart(p.row);
      var startCol: int := BoxStart(p.col);
      for i: int := 0 to 3
        invariant s == BoxMissing(b, p, i, 0)
      {
        for j: int := 0 to 3
          invariant s == BoxMissing(b, p, i, j)
        {
          var currentValue := grid[9 * (startRow + i) + (startCol + j)].GetValue();
          assert currentValue == BoxValue(b, p, i, j);
          if currentValue != 0 {
            s := Delete(s, currentValue);
          }
        }
      }
      BoxMissingAll(b, p);
    }

    /**
     * `getAvailableGuesses`: the box candidates, in their order, that are also
     * row and column candidates.
     */
    method GetAvailableGuesses(cell: CellRef) returns (s: seq<int>)
      requires Valid()
      ensures s == Candidates(Cells(), cell)
    {
      var availableValuesInBox := GetAvailableGuessesInBox(cell);
      var availableValuesInRow := GetAvailableGuessesInRow(cell);
      var availableValuesInCol := GetAvailableGuessesInCol(cell);
      s := Intersect(availableValuesInBox, availableValuesInRow, availableValuesInCol);
      IncreasingUnique(s, Candidates(Cells(), cell));
    }

    /**
     * `print`: a separator line before rows 0, 3 and 6, each row built part
     * by part (its parts joined with no separator as they are pushed), a
     * separator line after row 8, and the lines joined by newlines.
     */
    method Print() returns (text: string)
      requires Valid()
      ensures text == Render(Cells())
    {
      ghost var b := Cells();
      var sudokuParts: seq<string> := [];
      for row: int := 0 to 9
        invariant sudokuParts == PartsBefore(Rows(b), row)
      {
        if row % 3 == 0 {
          sudokuParts := sudokuParts + [Separator];
        }
        var sudokuPartsRow: string := "";
        for col: int := 0 to 9
          invariant sudokuPartsRow == RowPrefix(b, row, col)
        {
          if col % 3 == 0 {
            sudokuPartsRow := sudokuPartsRow + "|";
          }
          var value := grid[9 * row + col].GetValue();
          assert value == ValueAt(b, row, col);
          sudokuPartsRow := sudokuPartsRow + [DigitChar(value)];
        }
        sudokuPartsRow := sudokuPartsRow + "|";
        assert sudokuPartsRow == Rows(b)[row];
        sudokuParts := sudokuParts + [sudokuPartsRow];
      }
      sudokuParts := sudokuParts + [Separator];
      text := Join(sudokuParts, '\n');
    }
  }

  /**
   * The cells of `getCopy`'s result: the same given and the same effective
   * value at every position, the effective value held as the guess of every
   * given-less cell.
   */
  function Snapshot(b: Grid): (r: Grid)
    ensures forall i :: 0 <= i < 81 ==> r[i].initialValue == b[i].initialValue
    ensures forall i :: 0 <= i < 81 ==> r[i].GetValue() == b[i].GetValue()
    ensures forall i :: 0 <= i < 81 && b[i].initialValue == 0 ==> r[i].value == b[i].GetValue()
  {
    seq(81, i requires 0 <= i < 81 => NewCell(b[i].initialValue, b[i].GetValue()))
  }
}
