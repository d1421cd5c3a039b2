/**
 * The value-level view of a Sudoku board: cells with a given layer and a
 * guess layer, row-major positions, the given-less scans, the candidate sets
 * and the row/column/box consistency that a fill must keep.
 *
 * The source's `null` is the value 0 throughout: the constructor maps both
 * 0 and a missing entry to `null` (`x || null`), so 0 never occurs as a digit.
 */
module Board {
  import opened Wrappers

  /** A cell entry: 1..9 is a digit, 0 stands for `null`. */
  type Value = v: int | 0 <= v <= 9

  /** A row or column index. */
  type Coord = i: int | 0 <= i < 9

  /**
   * A cell: its given (`initialValue`, fixed for the grid's lifetime) and its
   * guess (`value`, written by the solvers).
   */
  datatype Cell = Cell(initialValue: Value, value: Value) {
    /** The effective value: the given when there is one, else the guess. */
    function GetValue(): Value {
      if initialValue != 0 then initialValue else value
    }

    /** Writing a guess touches the guess layer only. */
    function SetValue(v: Value): Cell {
      this.(value := v)
    }
  }

  /** A freshly built cell: a cell with a given starts without a guess. */
  function NewCell(initialValue: Value, value: Value): Cell {
    Cell(initialValue, if initialValue != 0 then 0 else value)
  }

  lemma NewCellLayers(initialValue: Value, value: Value)
    ensures NewCell(initialValue, value).initialValue == initialValue
    ensures initialValue != 0 ==> NewCell(initialValue, value).value == 0
    ensures initialValue != 0 ==> NewCell(initialValue, value).GetValue() == initialValue
    ensures initialValue == 0 ==> NewCell(initialValue, value).GetValue() == value
  {
  }

  /**
   * Writing a guess never changes the given, so it never changes whether the
   * cell counts as empty; on a cell with a given it does not even change the
   * effective value.
   */
  lemma SetValueKeepsGiven(c: Cell, v: Value)
    ensures c.SetValue(v).initialValue == c.initialValue
    ensures c.initialValue != 0 ==> c.SetValue(v).GetValue() == c.GetValue()
    ensures c.initialValue == 0 ==> c.SetValue(v).GetValue() == v
  {
  }

  /** A position on the board. */
  datatype Pos = Pos(row: Coord, col: Coord)

  /** Row-major index of a position. */
  function Index(p: Pos): (i: nat)
    ensures i < 81
  {
    9 * p.row + p.col
  }

  function PosOf(i: nat): (p: Pos)
    requires i < 81
    ensures Index(p) == i
  {
    Pos(i / 9, i % 9)
  }

  lemma PosOfIndex(p: Pos)
    ensures PosOf(Index(p)) == p
  {
  }

  /**
   * A reference to a cell, in place of the source's object identity: a cell of
   * this grid, located by its position, or a cell object that belongs to no
   * position of this grid (it still has a value of its own).
   */
  datatype CellRef = At(pos: Pos) | Foreign(cell: Cell)

  /** The 81 cells of a grid in row-major order. */
  type Grid = b: seq<Cell> | |b| == 81 witness seq(81, _ => Cell(0, 0))

  /** A construction input: rows of entries; a short row or a missing row reads as `null`. */
  type Layout = seq<seq<Value>>

  function Entry(m: Layout, row: Coord, col: Coord): Value {
    if row < |m| && col < |m[row]| then m[row][col] else 0
  }

  /** The given layer that a layout describes, row-major. */
  function GivensOf(m: Layout): (g: seq<Value>)
    ensures |g| == 81
    ensures forall i :: 0 <= i < 81 ==> g[i] == Entry(m, i / 9, i % 9)
  {
    seq(81, i requires 0 <= i < 81 => Entry(m, i / 9, i % 9))
  }

  /** The cells that `new SudokuGrid(initialValues, values)` builds. */
  function Build(initialValues: Layout, values: Layout): (b: Grid)
    ensures forall i :: 0 <= i < 81 ==>
      b[i] == NewCell(Entry(initialValues, i / 9, i % 9), Entry(values, i / 9, i % 9))
  {
    seq(81, i requires 0 <= i < 81 => NewCell(Entry(initialValues, i / 9, i % 9), Entry(values, i / 9, i % 9)))
  }

  /** The effective value at a position. */
  function ValueAt(b: Grid, row: int, col: int): Value
    requires 0 <= row < 9 && 0 <= col < 9
  {
    b[9 * row + col].GetValue()
  }

  /** The effective value of a referenced cell (its own value when foreign). */
  function RefValue(b: Grid, ref: CellRef): Value {
    match ref
    case At(p) => b[Index(p)].GetValue()
    case Foreign(c) => c.GetValue()
  }

  /** Every cell has an effective value. */
  predicate Complete(b: Grid) {
    forall i :: 0 <= i < 81 ==> b[i].GetValue() != 0
  }

  /** Number of cells without an effective value. */
  function UnvaluedCount(s: seq<Cell>): (n: nat)
    ensures n <= |s|
  {
    if s == [] then 0 else (if s[0].GetValue() == 0 then 1 else 0) + UnvaluedCount(s[1..])
  }

  /** Giving a value to a cell that had none lowers the count by one. */
  lemma {:induction false} UnvaluedCountFill(s: seq<Cell>, i: nat, c: Cell)
    requires i < |s| && s[i].GetValue() == 0 && c.GetValue() != 0
    ensures UnvaluedCount(s[i := c]) == UnvaluedCount(s) - 1
  {
    if i > 0 {
      assert s[i := c][1..] == s[1..][i - 1 := c];
      UnvaluedCountFill(s[1..], i - 1, c);
    } else {
      assert s[i := c][1..] == s[1..];
    }
  }

  // ---------------------------------------------------------------------------
  // Given-less scans (a cell is "empty" when its given is null, whatever its guess)

  /** The first position at or after index `from`, row-major, whose given is null. */
  function FirstEmptyFrom(givens: seq<Value>, from: nat): (r: Option<Pos>)
    requires |givens| == 81 && from <= 81
    ensures r.Some? ==> from <= Index(r.value) && givens[Index(r.value)] == 0
    ensures r.Some? ==> forall i :: from <= i < Index(r.value) ==> givens[i] != 0
    ensures r.None? ==> forall i :: from <= i < 81 ==> givens[i] != 0
    decreases 81 - from
  {
    if from == 81 then None
    else if givens[from] == 0 then Some(PosOf(from))
    else FirstEmptyFrom(givens, from + 1)
  }

  /** `getFirstEmptyCell`: the first given-less position, or none when every cell is a given. */
  function FirstEmpty(givens: seq<Value>): Option<Pos>
    requires |givens| == 81
  {
    FirstEmptyFrom(givens, 0)
  }

  /**
   * `getNextEmptyCell`: the first given-less position strictly after the
   * referenced cell; none when there is none or the cell is not in this grid.
   */
  function NextEmpty(givens: seq<Value>, ref: CellRef): Option<Pos>
    requires |givens| == 81
  {
    match ref
    case Foreign(_) => None
    case At(p) => FirstEmptyFrom(givens, Index(p) + 1)
  }

  /** The scan's result is determined by its characterisation. */
  lemma {:induction false} FirstEmptyFromUnique(givens: seq<Value>, from: nat, p: Pos)
    requires |givens| == 81 && from <= Index(p)
    requires givens[Index(p)] == 0
    requires forall i :: from <= i < Index(p) ==> givens[i] != 0
    ensures FirstEmptyFrom(givens, from) == Some(p)
    decreases Index(p) - from
  {
    if from == Index(p) {
      PosOfIndex(p);
    } else {
      FirstEmptyFromUnique(givens, from + 1, p);
    }
  }

  // ---------------------------------------------------------------------------
  // Ascending digit sequences (the source's insertion-ordered `Set<number>`)

  /** Strictly ascending, so "first" is the minimum and "last" the maximum. */
  predicate Increasing(s: seq<int>) {
    forall i, j :: 0 <= i < j < |s| ==> s[i] < s[j]
  }

  /** Two ascending sequences with the same members are the same sequence. */
  lemma {:induction false} IncreasingUnique(s: seq<int>, t: seq<int>)
    requires Increasing(s) && Increasing(t)
    requires forall x :: x in s <==> x in t
    ensures s == t
  {
    assert s != [] ==> s[0] in s;
    assert t != [] ==> t[0] in t;
    if s != [] && t != [] {
      assert s[0] == t[0] by {
        assert s[0] in t && t[0] in s;
      }
      assert forall x :: x in s[1..] <==> x in s && x != s[0];
      assert forall x :: x in t[1..] <==> x in t && x != t[0];
      IncreasingUnique(s[1..], t[1..]);
      assert s == [s[0]] + s[1..] && t == [t[0]] + t[1..];
    }
  }

  /** Putting a smaller element in front keeps a sequence ascending. */
  lemma ConsIncreasing(x: int, s: seq<int>)
    requires Increasing(s)
    requires forall y :: y in s ==> x < y
    ensures Increasing([x] + s)
  {
    assert forall j :: 0 <= j < |s| ==> s[j] in s;
  }

  /** `Set.delete`: drops `x` and keeps the order of the rest. */
  function Delete(s: seq<int>, x: int): (r: seq<int>)
    ensures forall y :: y in r <==> y in s && y != x
    ensures Increasing(s) ==> Increasing(r)
  {
    if s == [] then []
    else if s[0] == x then Delete(s[1..], x)
    else
      var r := Delete(s[1..], x);
      if Increasing(s) then
        assert forall y :: y in s[1..] ==> s[0] < y by {
          assert forall j :: 1 <= j < |s| ==> s[j] == s[1..][j - 1];
        }
        ConsIncreasing(s[0], r);
        [s[0]] + r
      else
        [s[0]] + r
  }

  /** `[...s].filter(v => a.has(v) && b.has(v))`: keeps the order of `s`. */
  function Intersect(s: seq<int>, a: seq<int>, b: seq<int>): (r: seq<int>)
    ensures forall y :: y in r <==> y in s && y in a && y in b
    ensures Increasing(s) ==> Increasing(r)
  {
    if s == [] then []
    else if s[0] in a && s[0] in b then
      var r := Intersect(s[1..], a, b);
      if Increasing(s) then
        assert forall y :: y in s[1..] ==> s[0] < y by {
          assert forall j :: 1 <= j < |s| ==> s[j] == s[1..][j - 1];
        }
        ConsIncreasing(s[0], r);
        [s[0]] + r
      else
        [s[0]] + r
    else Intersect(s[1..], a, b)
  }

  // ---------------------------------------------------------------------------
  // Candidates

  /** First row (or column) of the band of three that holds `x`: `3 * floor(x / 3)`. */
  function BoxStart(x: Coord): (s: Coord)
    ensures s <= x < s + 3 && s <= 6
  {
    if x < 3 then 0 else if x < 6 then 3 else 6
  }

  lemma BoxStartIsFloor(x: Coord)
    ensures BoxStart(x) == 3 * (x / 3)
  {
  }

  /** Top-left corner of the 3x3 box holding `p`. */
  function BoxOrigin(p: Pos): Pos {
    Pos(BoxStart(p.row), BoxStart(p.col))
  }

  /** The cell in row `i` and column `j` of the box of `p` (both 0..2). */
  function BoxValue(b: Grid, p: Pos, i: int, j: int): Value
    requires 0 <= i < 3 && 0 <= j < 3
  {
    ValueAt(b, BoxOrigin(p).row + i, BoxOrigin(p).col + j)
  }

  /** No digit `d` among the first `k` cells of the box of `p`, scanned row by row. */
  ghost predicate BoxAbsent(b: Grid, p: Pos, d: int, k: int) {
    forall i, j :: 0 <= i < 3 && 0 <= j < 3 && 3 * i + j < k ==> BoxValue(b, p, i, j) != d
  }

  lemma BoxAbsentStep(b: Grid, p: Pos, d: int, i: int, j: int)
    requires 0 <= i < 3 && 0 <= j < 3
    ensures BoxAbsent(b, p, d, 3 * i + j + 1) <==> BoxAbsent(b, p, d, 3 * i + j) && BoxValue(b, p, i, j) != d
  {
    if BoxAbsent(b, p, d, 3 * i + j) && BoxValue(b, p, i, j) != d {
      forall i', j' | 0 <= i' < 3 && 0 <= j' < 3 && 3 * i' + j' < 3 * i + j + 1
        ensures BoxValue(b, p, i', j') != d
      {
        if 3 * i' + j' == 3 * i + j {
          assert i' == i && j' == j;
        }
      }
    }
  }

  /** The digits 1..9, ascending: where every scan starts. */
  function AllDigits(): (r: seq<int>)
    ensures Increasing(r)
  {
    [1, 2, 3, 4, 5, 6, 7, 8, 9]
  }

  lemma AllDigitsMembers()
    ensures forall d :: d in AllDigits() <==> 1 <= d <= 9
  {
    forall d | 1 <= d <= 9
      ensures d in AllDigits()
    {
      assert AllDigits()[d - 1] == d;
    }
  }

  /** One scan step: the value of the cell met, when it has one, struck off the digits left. */
  function Strike(s: seq<int>, v: Value): (r: seq<int>)
    ensures forall d :: d in r <==> d in s && (v == 0 || d != v)
    ensures Increasing(s) ==> Increasing(r)
  {
    if v != 0 then Delete(s, v) else s
  }

  /** No digit `d` among the first `k` cells of row `row`. */
  ghost predicate RowAbsent(b: Grid, row: Coord, d: int, k: int) {
    forall c :: 0 <= c < k && c < 9 ==> ValueAt(b, row, c) != d
  }

  lemma RowAbsentStep(b: Grid, row: Coord, d: int, k: int)
    requires 0 <= k < 9
    ensures RowAbsent(b, row, d, k + 1) <==> RowAbsent(b, row, d, k) && ValueAt(b, row, k) != d
  {
  }

  /** One cell of the row scan: what holds before the cell holds after it. */
  lemma RowScanStep(b: Grid, row: Coord, s: seq<int>, k: int)
    requires 0 <= k < 9
    requires forall d :: d in s <==> 1 <= d <= 9 && RowAbsent(b, row, d, k)
    ensures forall d :: d in Strike(s, ValueAt(b, row, k)) <==> 1 <= d <= 9 && RowAbsent(b, row, d, k + 1)
  {
    forall d
      ensures RowAbsent(b, row, d, k + 1) <==> RowAbsent(b, row, d, k) && ValueAt(b, row, k) != d
    {
      RowAbsentStep(b, row, d, k);
    }
  }

  /** The row scan of `getAvailableGuessesInRow` after its first `k` columns. */
  function RowMissing(b: Grid, row: Coord, k: int): (r: seq<int>)
    requires 0 <= k <= 9
    ensures Increasing(r)
  {
    if k == 0 then AllDigits() else Strike(RowMissing(b, row, k - 1), ValueAt(b, row, k - 1))
  }

  /** After `k` columns the row scan holds, ascending, the digits none of them holds. */
  lemma {:induction false} RowMissingMembers(b: Grid, row: Coord, k: int)
    requires 0 <= k <= 9
    ensures forall d :: d in RowMissing(b, row, k) <==> 1 <= d <= 9 && RowAbsent(b, row, d, k)
  {
    if k == 0 {
      AllDigitsMembers();
    } else {
      RowMissingMembers(b, row, k - 1);
      RowScanStep(b, row, RowMissing(b, row, k - 1), k - 1);
    }
  }

  /** A scan of the whole row leaves the digits missing from the row. */
  lemma RowMissingAll(b: Grid, row: Coord)
    ensures forall d :: d in RowMissing(b, row, 9) <==> 1 <= d <= 9 && !InRow(b, row, d)
  {
    RowMissingMembers(b, row, 9);
  }

  /** No digit `d` among the first `k` cells of column `col`. */
  ghost predicate ColAbsent(b: Grid, col: Coord, d: int, k: int) {
    forall r :: 0 <= r < k && r < 9 ==> ValueAt(b, r, col) != d
  }

  lemma ColAbsentStep(b: Grid, col: Coord, d: int, k: int)
    requires 0 <= k < 9
    ensures ColAbsent(b, col, d, k + 1) <==> ColAbsent(b, col, d, k) && ValueAt(b, k, col) != d
  {
  }

  /** One cell of the column scan: what holds before the cell holds after it. */
  lemma ColScanStep(b: Grid, col: Coord, s: seq<int>, k: int)
    requires 0 <= k < 9
    requires forall d :: d in s <==> 1 <= d <= 9 && ColAbsent(b, col, d, k)
    ensures forall d :: d in Strike(s, ValueAt(b, k, col)) <==> 1 <= d <= 9 && ColAbsent(b, col, d, k + 1)
  {
    forall d
      ensures ColAbsent(b, col, d, k + 1) <==> ColAbsent(b, col, d, k) && ValueAt(b, k, col) != d
    {
      ColAbsentStep(b, col, d, k);
    }
  }

  /** The column scan of `getAvailableGuessesInCol` after its first `k` rows. */
  function ColMissing(b: Grid, col: Coord, k: int): (r: seq<int>)
    requires 0 <= k <= 9
    ensures Increasing(r)
  {
    if k == 0 then AllDigits() else Strike(ColMissing(b, col, k - 1), ValueAt(b, k - 1, col))
  }

  /** After `k` rows the column scan holds, ascending, the digits none of them holds. */
  lemma {:induction false} ColMissingMembers(b: Grid, col: Coord, k: int)
    requires 0 <= k <= 9
    ensures forall d :: d in ColMissing(b, col, k) <==> 1 <= d <= 9 && ColAbsent(b, col, d, k)
  {
    if k == 0 {
      AllDigitsMembers();
    } else {
      ColMissingMembers(b, col, k - 1);
      ColScanStep(b, col, ColMissing(b, col, k - 1), k - 1);
    }
  }

  /** A scan of the whole column leaves the digits missing from the column. */
  lemma ColMissingAll(b: Grid, col: Coord)
    ensures forall d :: d in ColMissing(b, col, 9) <==> 1 <= d <= 9 && !InCol(b, col, d)
  {
    ColMissingMembers(b, col, 9);
  }

  /**
   * The box scan of `getAvailableGuessesInBox` after the rows of the box
   * above row `i` and the first `j` cells of row `i`.
   */
  function BoxMissing(b: Grid, p: Pos, i: int, j: int): (r: seq<int>)
    requires 0 <= i <= 3 && 0 <= j <= 3 && (i == 3 ==> j == 0)
    ensures Increasing(r)
    decreases i, j
  {
    if j > 0 then Strike(BoxMissing(b, p, i, j - 1), BoxValue(b, p, i, j - 1))
    else if i > 0 then BoxMissing(b, p, i - 1, 3)
    else AllDigits()
  }

  /** The box scan holds, ascending, the digits none of the cells met so far holds. */
  lemma {:induction false} BoxMissingMembers(b: Grid, p: Pos, i: int, j: int)
    requires 0 <= i <= 3 && 0 <= j <= 3 && (i == 3 ==> j == 0)
    ensures forall d :: d in BoxMissing(b, p, i, j) <==> 1 <= d <= 9 && BoxAbsent(b, p, d, 3 * i + j)
    decreases i, j
  {
    if j > 0 {
      BoxMissingMembers(b, p, i, j - 1);
      BoxScanStep(b, p, BoxMissing(b, p, i, j - 1), i, j - 1, 3 * i + j - 1);
    } else if i > 0 {
      BoxMissingMembers(b, p, i - 1, 3);
    } else {
      AllDigitsMembers();
    }
  }

  /** One cell of the box scan: what holds before the cell holds after it. */
  lemma BoxScanStep(b: Grid, p: Pos, s: seq<int>, i: int, j: int, k: int)
    requires 0 <= i < 3 && 0 <= j < 3 && k == 3 * i + j
    requires forall d :: d in s <==> 1 <= d <= 9 && BoxAbsent(b, p, d, k)
    ensures forall d :: d in Strike(s, BoxValue(b, p, i, j)) <==> 1 <= d <= 9 && BoxAbsent(b, p, d, k + 1)
  {
    forall d
      ensures BoxAbsent(b, p, d, k + 1) <==> BoxAbsent(b, p, d, k) && BoxValue(b, p, i, j) != d
    {
      BoxAbsentStep(b, p, d, i, j);
    }
  }

  /** Absent from all nine cells of the box is absent from the box. */
  lemma BoxAbsentAll(b: Grid, p: Pos, d: int)
    ensures BoxAbsent(b, p, d, 9) <==> !InBox(b, p, d)
  {
  }

  /** A scan of all nine cells of the box leaves the digits missing from the box. */
  lemma BoxMissingAll(b: Grid, p: Pos)
    ensures forall d :: d in BoxMissing(b, p, 3, 0) <==> 1 <= d <= 9 && !InBox(b, p, d)
  {
    BoxMissingMembers(b, p, 3, 0);
    forall d
      ensures BoxAbsent(b, p, d, 9) <==> !InBox(b, p, d)
    {
      BoxAbsentAll(b, p, d);
    }
  }

  /** A cell of the box of `p` has the same box. */
  lemma BoxMember(p: Pos, i: int, j: int)
    requires 0 <= i < 3 && 0 <= j < 3
    ensures BoxOrigin(Pos(BoxOrigin(p).row + i, BoxOrigin(p).col + j)) == BoxOrigin(p)
  {
  }

  predicate InRow(b: Grid, row: Coord, d: int) {
    exists col :: 0 <= col < 9 && ValueAt(b, row, col) == d
  }

  predicate InCol(b: Grid, col: Coord, d: int) {
    exists row :: 0 <= row < 9 && ValueAt(b, row, col) == d
  }

  predicate InBox(b: Grid, p: Pos, d: int) {
    exists i, j :: 0 <= i < 3 && 0 <= j < 3 && BoxValue(b, p, i, j) == d
  }

  /** A digit absent from the row, the column and the box of `p`. */
  predicate IsCandidate(b: Grid, p: Pos, d: int) {
    1 <= d <= 9 && !InRow(b, p.row, d) && !InCol(b, p.col, d) && !InBox(b, p, d)
  }

  /** The candidates of `p` that are at least `d`, in ascending order. */
  function CandidatesFrom(b: Grid, p: Pos, d: int): (s: seq<int>)
    requires 1 <= d <= 10
    ensures Increasing(s)
    ensures forall i :: 0 <= i < |s| ==> 1 <= s[i] <= 9
    ensures forall x :: x in s <==> d <= x && IsCandidate(b, p, x)
    decreases 10 - d
  {
    if d == 10 then []
    else if IsCandidate(b, p, d) then
      var r := CandidatesFrom(b, p, d + 1);
      ConsIncreasing(d, r);
      [d] + r
    else CandidatesFrom(b, p, d + 1)
  }

  /**
   * `getAvailableGuesses`: nothing for a cell that already has a value or that
   * is not in this grid; otherwise the digits absent from its row, column and
   * box, ascending.
   */
  function Candidates(b: Grid, ref: CellRef): (s: seq<int>)
    ensures Increasing(s)
    ensures forall i :: 0 <= i < |s| ==> 1 <= s[i] <= 9
    ensures ref.Foreign? || RefValue(b, ref) != 0 ==> s == []
    ensures ref.At? && RefValue(b, ref) == 0 ==>
      forall d :: d in s <==> IsCandidate(b, ref.pos, d)
  {
    match ref
    case Foreign(_) => []
    case At(p) => if b[Index(p)].GetValue() != 0 then [] else CandidatesFrom(b, p, 1)
  }

  // ---------------------------------------------------------------------------
  // Consistency: no digit twice in a row, a column or a box

  predicate SameUnit(p: Pos, q: Pos) {
    p.row == q.row || p.col == q.col || BoxOrigin(p) == BoxOrigin(q)
  }

  ghost predicate Consistent(b: Grid) {
    forall p: Pos, q: Pos ::
      p != q && SameUnit(p, q) && b[Index(p)].GetValue() != 0 ==>
        b[Index(p)].GetValue() != b[Index(q)].GetValue()
  }

  /** The board after writing guess `d` into the cell at `p`. */
  function Write(b: Grid, p: Pos, d: Value): Grid {
    b[Index(p) := b[Index(p)].SetValue(d)]
  }

  /** A digit present in a unit of `p` sits at some position of that unit. */
  lemma PresentInUnit(b: Grid, p: Pos, d: int) returns (q: Pos)
    requires 1 <= d <= 9 && !IsCandidate(b, p, d)
    ensures SameUnit(p, q) && b[Index(q)].GetValue() == d
  {
    if InRow(b, p.row, d) {
      var col :| 0 <= col < 9 && ValueAt(b, p.row, col) == d;
      q := Pos(p.row, col);
    } else if InCol(b, p.col, d) {
      var row :| 0 <= row < 9 && ValueAt(b, row, p.col) == d;
      q := Pos(row, p.col);
    } else {
      var i, j :| 0 <= i < 3 && 0 <= j < 3 && BoxValue(b, p, i, j) == d;
      q := Pos(BoxOrigin(p).row + i, BoxOrigin(p).col + j);
      BoxMember(p, i, j);
    }
  }

  /** A digit at another position of a unit of `p` is not a candidate of `p`. */
  lemma UnitExcludes(b: Grid, p: Pos, q: Pos)
    requires SameUnit(p, q)
    ensures !IsCandidate(b, p, b[Index(q)].GetValue())
  {
    var d := b[Index(q)].GetValue();
    if p.row == q.row {
      assert ValueAt(b, p.row, q.col) == d;
    } else if p.col == q.col {
      assert ValueAt(b, q.row, p.col) == d;
    } else {
      assert BoxValue(b, p, q.row - BoxOrigin(p).row, q.col - BoxOrigin(p).col) == d;
    }
  }

  /**
   * On a consistent board, writing a digit 1..9 into a cell without a value
   * keeps the board consistent exactly when the digit is a candidate of
   * that cell.
   */
  lemma CandidateIffConsistentFill(b: Grid, p: Pos, d: Value)
    requires Consistent(b)
    requires b[Index(p)].GetValue() == 0 && d != 0
    ensures IsCandidate(b, p, d) <==> Consistent(Write(b, p, d))
  {
    if IsCandidate(b, p, d) {
      CandidateFillConsistent(b, p, d);
    } else {
      NonCandidateFillInconsistent(b, p, d);
    }
  }

  /** Two positions of one unit still differ after a candidate is written at `p`. */
  lemma CandidateFillPair(b: Grid, p: Pos, d: Value, x: Pos, y: Pos)
    requires Consistent(b)
    requires b[Index(p)].GetValue() == 0 && IsCandidate(b, p, d)
    requires x != y && SameUnit(x, y) && Write(b, p, d)[Index(x)].GetValue() != 0
    ensures Write(b, p, d)[Index(x)].GetValue() != Write(b, p, d)[Index(y)].GetValue()
  {
    var b' := Write(b, p, d);
    assert b'[Index(p)].GetValue() == d;
    if x == p {
      UnitExcludes(b, p, y);
      PosOfIndex(y);
    } else if y == p {
      assert SameUnit(y, x);
      UnitExcludes(b, p, x);
      PosOfIndex(x);
    } else {
      PosOfIndex(x);
      PosOfIndex(y);
    }
  }

  lemma CandidateFillConsistent(b: Grid, p: Pos, d: Value)
    requires Consistent(b)
    requires b[Index(p)].GetValue() == 0 && IsCandidate(b, p, d)
    ensures Consistent(Write(b, p, d))
  {
    var b' := Write(b, p, d);
    forall x: Pos, y: Pos | x != y && SameUnit(x, y) && b'[Index(x)].GetValue() != 0
      ensures b'[Index(x)].GetValue() != b'[Index(y)].GetValue()
    {
      CandidateFillPair(b, p, d, x, y);
    }
  }

  lemma NonCandidateFillInconsistent(b: Grid, p: Pos, d: Value)
    requires b[Index(p)].GetValue() == 0 && 1 <= d <= 9 && !IsCandidate(b, p, d)
    ensures !Consistent(Write(b, p, d))
  {
    var b' := Write(b, p, d);
    var q := PresentInUnit(b, p, d);
    PosOfIndex(q);
    assert q != p;
    assert b'[Index(p)].GetValue() == d;
    assert b'[Index(q)].GetValue() == d;
  }

  // ---------------------------------------------------------------------------
  // Solutions: a complete, consistent board holds every digit in every unit

  /** Every row, every column and every box holds each digit 1..9. */
  ghost predicate IsSolution(b: Grid) {
    (forall row: Coord, d :: 1 <= d <= 9 ==> InRow(b, row, d)) &&
    (forall col: Coord, d :: 1 <= d <= 9 ==> InCol(b, col, d)) &&
    (forall p: Pos, d :: 1 <= d <= 9 ==> InBox(b, p, d))
  }

  predicate Distinct(s: seq<int>) {
    forall i, j :: 0 <= i < j < |s| ==> s[i] != s[j]
  }

  /** The tail of a distinct sequence is distinct and misses the head. */
  lemma DistinctTail(s: seq<int>)
    requires Distinct(s) && s != []
    ensures Distinct(s[1..]) && s[0] !in s[1..]
  {
    assert forall j :: 0 <= j < |s[1..]| ==> s[1..][j] == s[j + 1];
  }

  /** A head missing from a distinct tail makes a distinct sequence. */
  lemma DistinctCons(a: int, r: seq<int>)
    requires Distinct(r) && a !in r
    ensures Distinct([a] + r)
  {
    forall i, j | 0 <= i < j < |[a] + r| ensures ([a] + r)[i] != ([a] + r)[j] {
      assert ([a] + r)[j] == r[j - 1];
      if i > 0 {
        assert ([a] + r)[i] == r[i - 1];
      }
    }
  }

  lemma {:induction false} DeleteDistinct(s: seq<int>, x: int)
    requires Distinct(s)
    ensures Distinct(Delete(s, x))
    ensures x in s ==> |Delete(s, x)| == |s| - 1
    ensures x !in s ==> |Delete(s, x)| == |s|
  {
    if s != [] {
      DistinctTail(s);
      DeleteDistinct(s[1..], x);
      assert x in s <==> x == s[0] || x in s[1..];
      if s[0] != x {
        assert Delete(s, x) == [s[0]] + Delete(s[1..], x);
        DistinctCons(s[0], Delete(s[1..], x));
      }
    }
  }

  /** Pigeonhole: distinct elements drawn from a distinct sequence are no more than it has. */
  lemma {:induction false} DistinctWithin(s: seq<int>, t: seq<int>)
    requires Distinct(s) && Distinct(t)
    requires forall i :: 0 <= i < |s| ==> s[i] in t
    ensures |s| <= |t|
  {
    if s != [] {
      var t' := Delete(t, s[0]);
      DeleteDistinct(t, s[0]);
      assert s[0] in t;
      forall i | 0 <= i < |s[1..]| ensures s[1..][i] in t' {
        assert s[1..][i] == s[i + 1] && s[i + 1] != s[0];
        assert s[i + 1] in t;
      }
      assert Distinct(s[1..]) by {
        forall i, j | 0 <= i < j < |s[1..]| ensures s[1..][i] != s[1..][j] {
          assert s[1..][i] == s[i + 1] && s[1..][j] == s[j + 1];
        }
      }
      DistinctWithin(s[1..], t');
    }
  }

  /** The values at positions pairwise in one unit of a consistent board differ. */
  lemma UnitValuesDistinct(b: Grid, ps: seq<Pos>) returns (vals: seq<int>)
    requires Complete(b) && Consistent(b)
    requires forall i, j :: 0 <= i < |ps| && 0 <= j < |ps| && i != j ==> ps[i] != ps[j] && SameUnit(ps[i], ps[j])
    ensures |vals| == |ps| && Distinct(vals)
    ensures forall i :: 0 <= i < |ps| ==> vals[i] == b[Index(ps[i])].GetValue() && 1 <= vals[i] <= 9
  {
    vals := seq(|ps|, i requires 0 <= i < |ps| => b[Index(ps[i])].GetValue());
    forall i, j | 0 <= i < j < |vals| ensures vals[i] != vals[j] {
      assert ps[i] != ps[j] && SameUnit(ps[i], ps[j]);
    }
  }

  /** Nine distinct digits from 1..9 are all of them. */
  lemma NineDistinctDigits(vals: seq<int>, d: int)
    requires |vals| == 9 && Distinct(vals)
    requires forall i :: 0 <= i < 9 ==> 1 <= vals[i] <= 9
    requires 1 <= d <= 9
    ensures d in vals
  {
    if d !in vals {
      var digits := seq(9, i requires 0 <= i < 9 => i + 1);
      assert Distinct(digits);
      assert digits[d - 1] == d;
      DeleteDistinct(digits, d);
      var rest := Delete(digits, d);
      forall i | 0 <= i < 9 ensures vals[i] in rest {
        assert digits[vals[i] - 1] == vals[i];
        assert vals[i] != d;
      }
      DistinctWithin(vals, rest);
      assert false;
    }
  }

  /**
   * Nine distinct positions, pairwise in one unit, on a complete consistent
   * board hold every digit.
   */
  lemma UnitHoldsEveryDigit(b: Grid, ps: seq<Pos>, d: int) returns (k: int)
    requires Complete(b) && Consistent(b)
    requires |ps| == 9
    requires forall i, j :: 0 <= i < 9 && 0 <= j < 9 && i != j ==> ps[i] != ps[j] && SameUnit(ps[i], ps[j])
    requires 1 <= d <= 9
    ensures 0 <= k < 9 && b[Index(ps[k])].GetValue() == d
  {
    var vals := UnitValuesDistinct(b, ps);
    NineDistinctDigits(vals, d);
    k :| 0 <= k < 9 && vals[k] == d;
  }

  function RowUnit(row: Coord): seq<Pos> {
    seq(9, c requires 0 <= c < 9 => Pos(row, c))
  }

  function ColUnit(col: Coord): seq<Pos> {
    seq(9, r requires 0 <= r < 9 => Pos(r, col))
  }

  function BoxUnit(p: Pos): seq<Pos> {
    var o := BoxOrigin(p);
    [Pos(o.row, o.col), Pos(o.row, o.col + 1), Pos(o.row, o.col + 2),
     Pos(o.row + 1, o.col), Pos(o.row + 1, o.col + 1), Pos(o.row + 1, o.col + 2),
     Pos(o.row + 2, o.col), Pos(o.row + 2, o.col + 1), Pos(o.row + 2, o.col + 2)]
  }

  lemma BoxUnitAt(p: Pos, k: int) returns (i: int, j: int)
    requires 0 <= k < 9
    ensures 0 <= i < 3 && 0 <= j < 3
    ensures BoxUnit(p)[k] == Pos(BoxOrigin(p).row + i, BoxOrigin(p).col + j)
  {
    i := if k < 3 then 0 else if k < 6 then 1 else 2;
    j := k - 3 * i;
  }

  /** A complete board without a repeated digit in any unit is a solution. */
  lemma CompleteConsistentIsSolution(b: Grid)
    requires Complete(b) && Consistent(b)
    ensures IsSolution(b)
  {
    RowsHoldEveryDigit(b);
    ColsHoldEveryDigit(b);
    BoxesHoldEveryDigit(b);
  }

  lemma RowsHoldEveryDigit(b: Grid)
    requires Complete(b) && Consistent(b)
    ensures forall row: Coord, d :: 1 <= d <= 9 ==> InRow(b, row, d)
  {
    forall row: Coord, d | 1 <= d <= 9 ensures InRow(b, row, d) {
      var k := UnitHoldsEveryDigit(b, RowUnit(row), d);
      assert ValueAt(b, row, k) == d;
    }
  }

  lemma ColsHoldEveryDigit(b: Grid)
    requires Complete(b) && Consistent(b)
    ensures forall col: Coord, d :: 1 <= d <= 9 ==> InCol(b, col, d)
  {
    forall col: Coord, d | 1 <= d <= 9 ensures InCol(b, col, d) {
      var k := UnitHoldsEveryDigit(b, ColUnit(col), d);
      assert ValueAt(b, k, col) == d;
    }
  }

  /** The nine positions of a box are distinct and pairwise in one unit. */
  lemma BoxUnitPairwise(p: Pos)
    ensures forall i, j :: 0 <= i < 9 && 0 <= j < 9 && i != j ==>
      BoxUnit(p)[i] != BoxUnit(p)[j] && SameUnit(BoxUnit(p)[i], BoxUnit(p)[j])
  {
    var ps := BoxUnit(p);
    forall i, j | 0 <= i < 9 && 0 <= j < 9 && i != j ensures ps[i] != ps[j] && SameUnit(ps[i], ps[j]) {
      var i1, j1 := BoxUnitAt(p, i);
      var i2, j2 := BoxUnitAt(p, j);
      BoxMember(p, i1, j1);
      BoxMember(p, i2, j2);
    }
  }

  lemma BoxesHoldEveryDigit(b: Grid)
    requires Complete(b) && Consistent(b)
    ensures forall p: Pos, d :: 1 <= d <= 9 ==> InBox(b, p, d)
  {
    forall p: Pos, d | 1 <= d <= 9 ensures InBox(b, p, d) {
      BoxUnitPairwise(p);
      var k := UnitHoldsEveryDigit(b, BoxUnit(p), d);
      var i, j := BoxUnitAt(p, k);
      assert BoxValue(b, p, i, j) == d;
    }
  }

  // ---------------------------------------------------------------------------
  // A solution repeats no digit, so a single candidate is the solution's digit

  /** Every cell valued in `before` has the same value in `after`. */
  ghost predicate Extends(before: Grid, after: Grid) {
    forall i :: 0 <= i < 81 && before[i].GetValue() != 0 ==> after[i].GetValue() == before[i].GetValue()
  }

  /** The values of the cells `ps`, in order. */
  function UnitValues(b: Grid, ps: seq<Pos>): seq<int> {
    seq(|ps|, k requires 0 <= k < |ps| => b[Index(ps[k])].GetValue())
  }

  /** Where `d` sits in `vals`. */
  ghost function WhereIs(vals: seq<int>, d: int): (k: nat)
    requires d in vals
    ensures k < |vals| && vals[k] == d
  {
    var k :| 0 <= k < |vals| && vals[k] == d; k
  }

  /** Nine values that hold every digit hold each digit exactly once, and nothing else. */
  lemma NineDigitsOnce(vals: seq<int>)
    requires |vals| == 9 && forall d :: 1 <= d <= 9 ==> d in vals
    ensures Distinct(vals) && forall i :: 0 <= i < 9 ==> 1 <= vals[i] <= 9
  {
    var at := seq(9, k requires 0 <= k < 9 => WhereIs(vals, k + 1));
    var slots := seq(9, i requires 0 <= i < 9 => i);
    assert Distinct(at) by {
      forall i, j | 0 <= i < j < 9 ensures at[i] != at[j] {
        assert vals[at[i]] == i + 1 && vals[at[j]] == j + 1;
      }
    }
    forall c | 0 <= c < 9 ensures c in at {
      if c !in at {
        assert Distinct(slots);
        DeleteDistinct(slots, c);
        assert slots[c] == c;
        forall k | 0 <= k < 9 ensures at[k] in Delete(slots, c) {
          assert slots[at[k]] == at[k];
        }
        DistinctWithin(at, Delete(slots, c));
        assert false;
      }
    }
    forall i | 0 <= i < 9 ensures 1 <= vals[i] <= 9 {
      assert i in at;
      var k :| 0 <= k < 9 && at[k] == i;
    }
    forall i, j | 0 <= i < j < 9 ensures vals[i] != vals[j] {
      assert i in at && j in at;
      var ki :| 0 <= ki < 9 && at[ki] == i;
      var kj :| 0 <= kj < 9 && at[kj] == j;
    }
  }

  /** A unit of a solution holds each digit exactly once. */
  lemma SolutionUnit(b: Grid, ps: seq<Pos>)
    requires |ps| == 9
    requires forall d :: 1 <= d <= 9 ==> d in UnitValues(b, ps)
    ensures Distinct(UnitValues(b, ps)) && forall k :: 0 <= k < 9 ==> 1 <= UnitValues(b, ps)[k] <= 9
  {
    NineDigitsOnce(UnitValues(b, ps));
  }

  lemma SolutionRow(b: Grid, row: Coord)
    requires IsSolution(b)
    ensures Distinct(UnitValues(b, RowUnit(row))) && forall k :: 0 <= k < 9 ==> 1 <= UnitValues(b, RowUnit(row))[k] <= 9
  {
    forall d | 1 <= d <= 9 ensures d in UnitValues(b, RowUnit(row)) {
      assert InRow(b, row, d);
      var col :| 0 <= col < 9 && ValueAt(b, row, col) == d;
      assert UnitValues(b, RowUnit(row))[col] == d;
    }
    SolutionUnit(b, RowUnit(row));
  }

  lemma SolutionCol(b: Grid, col: Coord)
    requires IsSolution(b)
    ensures Distinct(UnitValues(b, ColUnit(col))) && forall k :: 0 <= k < 9 ==> 1 <= UnitValues(b, ColUnit(col))[k] <= 9
  {
    forall d | 1 <= d <= 9 ensures d in UnitValues(b, ColUnit(col)) {
      assert InCol(b, col, d);
      var row :| 0 <= row < 9 && ValueAt(b, row, col) == d;
      assert UnitValues(b, ColUnit(col))[row] == d;
    }
    SolutionUnit(b, ColUnit(col));
  }

  lemma SolutionBox(b: Grid, p: Pos)
    requires IsSolution(b)
    ensures Distinct(UnitValues(b, BoxUnit(p))) && forall k :: 0 <= k < 9 ==> 1 <= UnitValues(b, BoxUnit(p))[k] <= 9
  {
    forall d | 1 <= d <= 9 ensures d in UnitValues(b, BoxUnit(p)) {
      assert InBox(b, p, d);
      var i, j :| 0 <= i < 3 && 0 <= j < 3 && BoxValue(b, p, i, j) == d;
      BoxSlot(p, i, j);
      assert UnitValues(b, BoxUnit(p))[3 * i + j] == d;
    }
    SolutionUnit(b, BoxUnit(p));
  }

  /** The cell in row `i` and column `j` of the box of `p` is slot `3 * i + j` of its unit. */
  lemma BoxSlot(p: Pos, i: int, j: int)
    requires 0 <= i < 3 && 0 <= j < 3
    ensures BoxUnit(p)[3 * i + j] == Pos(BoxOrigin(p).row + i, BoxOrigin(p).col + j)
  {
  }

  /** A position's slot in the unit of its own box. */
  lemma BoxSlotOf(p: Pos, q: Pos) returns (k: int)
    requires BoxOrigin(p) == BoxOrigin(q)
    ensures 0 <= k < 9 && BoxUnit(p)[k] == q
    ensures forall r: Pos :: BoxOrigin(r) == BoxOrigin(p) && BoxUnit(p)[k] == r ==> r == q
  {
    var o := BoxOrigin(p);
    var i, j := q.row - o.row, q.col - o.col;
    BoxSlot(p, i, j);
    k := 3 * i + j;
  }

  /**
   * A solution has a value in every cell and no digit twice in a unit: the
   * converse of `CompleteConsistentIsSolution`.
   */
  lemma SolutionIsCompleteConsistent(b: Grid)
    requires IsSolution(b)
    ensures Complete(b) && Consistent(b)
  {
    forall i | 0 <= i < 81 ensures b[i].GetValue() != 0 {
      var p := PosOf(i);
      SolutionRow(b, p.row);
      assert UnitValues(b, RowUnit(p.row))[p.col] == b[i].GetValue();
    }
    forall p: Pos, q: Pos | p != q && SameUnit(p, q) && b[Index(p)].GetValue() != 0
      ensures b[Index(p)].GetValue() != b[Index(q)].GetValue()
    {
      if p.row == q.row {
        SolutionRow(b, p.row);
        assert UnitValues(b, RowUnit(p.row))[p.col] == b[Index(p)].GetValue();
        assert UnitValues(b, RowUnit(p.row))[q.col] == b[Index(q)].GetValue();
      } else if p.col == q.col {
        SolutionCol(b, p.col);
        assert UnitValues(b, ColUnit(p.col))[p.row] == b[Index(p)].GetValue();
        assert UnitValues(b, ColUnit(p.col))[q.row] == b[Index(q)].GetValue();
      } else {
        SolutionBox(b, p);
        var kp := BoxSlotOf(p, p);
        var kq := BoxSlotOf(p, q);
        assert UnitValues(b, BoxUnit(p))[kp] == b[Index(p)].GetValue();
        assert UnitValues(b, BoxUnit(p))[kq] == b[Index(q)].GetValue();
      }
    }
  }

  /**
   * The single candidate of a cell is the digit every solution extending the
   * board holds there, so writing it keeps every such solution in reach.
   */
  lemma SoleCandidateSound(b: Grid, p: Pos, s: Grid)
    requires |Candidates(b, At(p))| == 1 && IsSolution(s) && Extends(b, s)
    ensures s[Index(p)].GetValue() == Candidates(b, At(p))[0]
    ensures Extends(Write(b, p, Candidates(b, At(p))[0]), s)
  {
    var d := Candidates(b, At(p))[0];
    var e := s[Index(p)].GetValue();
    SolutionIsCompleteConsistent(s);
    assert b[Index(p)].GetValue() == 0;
    if !IsCandidate(b, p, e) {
      var q := PresentInUnit(b, p, e);
      assert false;
    }
    assert e in Candidates(b, At(p));
  }
}
