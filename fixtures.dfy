/**
 * The grids of the repository's tests, and what the modelled operations do
 * on them: the printed text of the solved and the easy puzzle, the candidates
 * of one cell, the flag `fillSingleGuesses` reports, and the first steps of
 * `backtracking` on a grid with a single given.
 */
module Fixtures {
  import opened Wrappers
  import opened Board
  import opened Text
  import opened Sudoku
  import opened SingleGuess
  import opened Backtracking

  /** The solved puzzle of the single-guess tests: every cell a given. */
  const Solved: Layout := [
    [6, 9, 2, 4, 1, 5, 3, 7, 8],
    [8, 1, 5, 7, 6, 3, 4, 2, 9],
    [7, 3, 4, 9, 2, 8, 5, 6, 1],
    [5, 7, 3, 2, 8, 4, 1, 9, 6],
    [1, 2, 8, 3, 9, 6, 7, 4, 5],
    [9, 4, 6, 1, 5, 7, 8, 3, 2],
    [3, 5, 1, 6, 7, 2, 9, 8, 4],
    [4, 6, 9, 8, 3, 1, 2, 5, 7],
    [2, 8, 7, 5, 4, 9, 6, 1, 3]
  ]

  /** Every cell of the solved puzzle is a given. */
  lemma SolvedAllGiven()
    ensures FirstEmpty(GivensOf(Solved)) == None
  {
    assert forall r: Coord, c: Coord :: Entry(Solved, r, c) != 0;
    assert forall i :: 0 <= i < 81 ==> GivensOf(Solved)[i] != 0;
  }

  /** The expected `print` of the solved puzzle, line by line. */
  const SolvedLines: seq<string> := [
    "-------------",
    "|692|415|378|",
    "|815|763|429|",
    "|734|928|561|",
    "-------------",
    "|573|284|196|",
    "|128|396|745|",
    "|946|157|832|",
    "-------------",
    "|351|672|984|",
    "|469|831|257|",
    "|287|549|613|",
    "-------------"
  ]

  /** A line `|abc|def|ghi|` whose nine digits are the cells of row `r` is that row's text. */
  lemma RowIs(b: Grid, r: Coord, line: string)
    requires |line| == 13 && line[0] == '|' && line[4] == '|' && line[8] == '|' && line[12] == '|'
    requires line[1] == D(b, r, 0) && line[2] == D(b, r, 1) && line[3] == D(b, r, 2)
    requires line[5] == D(b, r, 3) && line[6] == D(b, r, 4) && line[7] == D(b, r, 5)
    requires line[9] == D(b, r, 6) && line[10] == D(b, r, 7) && line[11] == D(b, r, 8)
    ensures Rows(b)[r] == line
  {
    RowsLayout(b);
    forall j | 0 <= j < 13 ensures Rows(b)[r][j] == line[j] {
      if j % 4 != 0 {
        var c := j - 1 - j / 4;
        assert j == 1 + c + c / 3;
      }
    }
  }

  /** The text of a board whose nine rows are the data lines of `lines`, with separator lines between. */
  lemma RenderFromRows(b: Grid, lines: seq<string>)
    requires |lines| == 13
    requires lines[0] == Separator && lines[4] == Separator && lines[8] == Separator && lines[12] == Separator
    requires Rows(b)[0] == lines[1] && Rows(b)[1] == lines[2] && Rows(b)[2] == lines[3]
    requires Rows(b)[3] == lines[5] && Rows(b)[4] == lines[6] && Rows(b)[5] == lines[7]
    requires Rows(b)[6] == lines[9] && Rows(b)[7] == lines[10] && Rows(b)[8] == lines[11]
    ensures Render(b) == Join(lines, '\n')
  {
    PartsLayout(b);
    forall k | 0 <= k < 13 ensures Parts(b)[k] == lines[k] {
      if k % 4 != 0 {
        var r := RowOfLine(k);
        assert Parts(b)[k] == Rows(b)[r];
      }
    }
    assert Parts(b) == lines;
  }

  /** The printed form `|abc|def|ghi|` of nine entries. */
  function LineOf(row: seq<Value>): string
    requires |row| == 9
  {
    ['|', DigitChar(row[0]), DigitChar(row[1]), DigitChar(row[2]),
     '|', DigitChar(row[3]), DigitChar(row[4]), DigitChar(row[5]),
     '|', DigitChar(row[6]), DigitChar(row[7]), DigitChar(row[8]), '|']
  }

  /** A full row of a construction layout prints as that row's entries. */
  lemma BuildRow(m: Layout, r: Coord)
    requires r < |m| && |m[r]| == 9
    ensures Rows(Build(m, []))[r] == LineOf(m[r])
  {
    var b := Build(m, []);
    forall c: Coord ensures D(b, r, c) == DigitChar(m[r][c]) {
      assert (9 * r + c) / 9 == r && (9 * r + c) % 9 == c;
    }
    RowIs(b, r, LineOf(m[r]));
  }

  /**
   * A board built from a full layout prints as `lines` when the data lines
   * of `lines` are the layout's rows and the others separators.
   */
  lemma LayoutPrint(m: Layout, lines: seq<string>)
    requires |m| == 9 && forall r :: 0 <= r < 9 ==> |m[r]| == 9
    requires |lines| == 13
    requires lines[0] == Separator && lines[4] == Separator && lines[8] == Separator && lines[12] == Separator
    requires lines[1] == LineOf(m[0]) && lines[2] == LineOf(m[1]) && lines[3] == LineOf(m[2])
    requires lines[5] == LineOf(m[3]) && lines[6] == LineOf(m[4]) && lines[7] == LineOf(m[5])
    requires lines[9] == LineOf(m[6]) && lines[10] == LineOf(m[7]) && lines[11] == LineOf(m[8])
    ensures Render(Build(m, [])) == Join(lines, '\n')
  {
    BuildRow(m, 0);
    BuildRow(m, 1);
    BuildRow(m, 2);
    BuildRow(m, 3);
    BuildRow(m, 4);
    BuildRow(m, 5);
    BuildRow(m, 6);
    BuildRow(m, 7);
    BuildRow(m, 8);
    RenderFromRows(Build(m, []), lines);
  }

  /** `print` of the solved puzzle: the thirteen lines of the expected text. */
  lemma SolvedPrint()
    ensures Render(Build(Solved, [])) == Join(SolvedLines, '\n')
  {
    LayoutPrint(Solved, SolvedLines);
  }

  /** The easy puzzle of the tests. */
  const Easy: Layout := [
    [6, 0, 2, 4, 1, 0, 0, 0, 8],
    [0, 1, 5, 7, 0, 3, 0, 0, 9],
    [7, 3, 4, 0, 0, 8, 0, 6, 0],
    [5, 0, 3, 2, 0, 4, 0, 0, 0],
    [0, 0, 8, 0, 9, 0, 0, 0, 5],
    [0, 0, 6, 0, 5, 7, 0, 3, 0],
    [0, 5, 0, 0, 7, 0, 9, 0, 4],
    [4, 0, 9, 0, 0, 0, 2, 5, 0],
    [0, 8, 7, 0, 0, 0, 6, 0, 3]
  ]

  /** The values of a row, of a column and of the box of `p`, box cells row by row. */
  function RowValues(b: Grid, row: Coord): seq<Value> {
    seq(9, col requires 0 <= col < 9 => ValueAt(b, row, col))
  }

  function ColValues(b: Grid, col: Coord): seq<Value> {
    seq(9, row requires 0 <= row < 9 => ValueAt(b, row, col))
  }

  function BoxValues(b: Grid, p: Pos): seq<Value> {
    [BoxValue(b, p, 0, 0), BoxValue(b, p, 0, 1), BoxValue(b, p, 0, 2),
     BoxValue(b, p, 1, 0), BoxValue(b, p, 1, 1), BoxValue(b, p, 1, 2),
     BoxValue(b, p, 2, 0), BoxValue(b, p, 2, 1), BoxValue(b, p, 2, 2)]
  }

  /** A candidate is a digit missing from the row, the column and the box. */
  lemma CandidateByUnits(b: Grid, p: Pos, d: int, row: seq<Value>, col: seq<Value>, box: seq<Value>)
    requires RowValues(b, p.row) == row && ColValues(b, p.col) == col && BoxValues(b, p) == box
    ensures IsCandidate(b, p, d) <==> 1 <= d <= 9 && d !in row && d !in col && d !in box
  {
    if InRow(b, p.row, d) {
      var col :| 0 <= col < 9 && ValueAt(b, p.row, col) == d;
      assert RowValues(b, p.row)[col] == d;
    }
    if InCol(b, p.col, d) {
      var row :| 0 <= row < 9 && ValueAt(b, row, p.col) == d;
      assert ColValues(b, p.col)[row] == d;
    }
    if InBox(b, p, d) {
      var i, j :| 0 <= i < 3 && 0 <= j < 3 && BoxValue(b, p, i, j) == d;
      assert BoxValues(b, p)[3 * i + j] == d;
    }
  }

  /** Row 4, column 1 and the middle-left box of the easy puzzle. */
  lemma EasyRow()
    ensures RowValues(Build(Easy, []), 4) == [0, 0, 8, 0, 9, 0, 0, 0, 5]
  {
    var b := Build(Easy, []);
    assert b[36].GetValue() == 0 && b[37].GetValue() == 0 && b[38].GetValue() == 8;
    assert b[39].GetValue() == 0 && b[40].GetValue() == 9 && b[41].GetValue() == 0;
    assert b[42].GetValue() == 0 && b[43].GetValue() == 0 && b[44].GetValue() == 5;
  }

  lemma EasyCol()
    ensures ColValues(Build(Easy, []), 1) == [0, 1, 3, 0, 0, 0, 5, 0, 8]
  {
    var b := Build(Easy, []);
    assert b[1].GetValue() == 0 && b[10].GetValue() == 1 && b[19].GetValue() == 3;
    assert b[28].GetValue() == 0 && b[37].GetValue() == 0 && b[46].GetValue() == 0;
    assert b[55].GetValue() == 5 && b[64].GetValue() == 0 && b[73].GetValue() == 8;
  }

  lemma EasyBox()
    ensures BoxValues(Build(Easy, []), Pos(4, 1)) == [5, 0, 3, 0, 0, 8, 0, 0, 6]
  {
    var b := Build(Easy, []);
    assert BoxOrigin(Pos(4, 1)) == Pos(3, 0);
    assert b[27].GetValue() == 5 && b[28].GetValue() == 0 && b[29].GetValue() == 3;
    assert b[36].GetValue() == 0 && b[37].GetValue() == 0 && b[38].GetValue() == 8;
    assert b[45].GetValue() == 0 && b[46].GetValue() == 0 && b[47].GetValue() == 6;
  }

  /** The digits missing from row 4, column 1 and their box in the easy puzzle. */
  lemma EasyMissing(d: int)
    ensures IsCandidate(Build(Easy, []), Pos(4, 1), d) <==> d in [2, 4, 7]
  {
    EasyRow();
    EasyCol();
    EasyBox();
    CandidateByUnits(Build(Easy, []), Pos(4, 1), d,
      [0, 0, 8, 0, 9, 0, 0, 0, 5], [0, 1, 3, 0, 0, 0, 5, 0, 8], [5, 0, 3, 0, 0, 8, 0, 0, 6]);
    if 1 <= d <= 9 {
      assert d in {1, 2, 3, 4, 5, 6, 7, 8, 9};
    }
  }

  /** `getAvailableGuesses` at row 4, column 1 of the easy puzzle: 2, 4 and 7. */
  lemma EasyCandidates()
    ensures Candidates(Build(Easy, []), At(Pos(4, 1))) == [2, 4, 7]
  {
    var b := Build(Easy, []);
    var s := Candidates(b, At(Pos(4, 1)));
    assert b[37].GetValue() == 0;
    forall x ensures x in s <==> x in [2, 4, 7] {
      EasyMissing(x);
    }
    IncreasingUnique(s, [2, 4, 7]);
  }

  /** Writing a guess into a given-less cell changes its row's values at that column only. */
  lemma WriteRow(b: Grid, p: Pos, d: Value)
    requires b[Index(p)].initialValue == 0
    ensures RowValues(Write(b, p, d), p.row) == RowValues(b, p.row)[p.col := d]
  {
  }

  /** Writing a cell leaves the other columns as they were. */
  lemma WriteOtherCol(b: Grid, p: Pos, d: Value, col: Coord)
    requires col != p.col
    ensures ColValues(Write(b, p, d), col) == ColValues(b, col)
  {
  }

  /** Writing a cell leaves the other boxes as they were. */
  lemma WriteOtherBox(b: Grid, p: Pos, d: Value, q: Pos)
    requires BoxOrigin(p) != BoxOrigin(q)
    ensures BoxValues(Write(b, p, d), q) == BoxValues(b, q)
  {
    var o := BoxOrigin(q);
    forall i, j | 0 <= i < 3 && 0 <= j < 3
      ensures BoxValue(Write(b, p, d), q, i, j) == BoxValue(b, q, i, j)
    {
      BoxMember(q, i, j);
      WriteElsewhere(b, p, d, Pos(o.row + i, o.col + j));
    }
  }

  /** Writing a cell leaves every other cell as it was. */
  lemma WriteElsewhere(b: Grid, p: Pos, d: Value, q: Pos)
    requires q != p
    ensures ValueAt(Write(b, p, d), q.row, q.col) == ValueAt(b, q.row, q.col)
  {
    assert Index(q) != Index(p);
  }

  /**
   * What the walk on the easy puzzle reads of its starting cells: row 0,
   * the columns and boxes of row 0's columns 1, 5 and 6, and that those
   * three cells have no given.
   */
  ghost predicate IsEasyStart(b: Grid) {
    b[1].initialValue == 0 && b[5].initialValue == 0 &&
    RowValues(b, 0) == [6, 0, 2, 4, 1, 0, 0, 0, 8] &&
    ColValues(b, 1) == [0, 1, 3, 0, 0, 0, 5, 0, 8] && BoxValues(b, Pos(0, 1)) == [6, 0, 2, 0, 1, 5, 7, 3, 4] &&
    ColValues(b, 5) == [0, 3, 8, 4, 0, 7, 0, 0, 0] && BoxValues(b, Pos(0, 5)) == [4, 1, 0, 7, 0, 3, 0, 0, 8] &&
    ColValues(b, 6) == [0, 0, 0, 0, 0, 0, 9, 2, 6] && BoxValues(b, Pos(0, 6)) == [0, 0, 8, 0, 0, 9, 0, 6, 0]
  }

  /** The given-less cells the walk on the easy puzzle visits: row 0, columns 1, 5 and 6. */
  ghost predicate IsEasyGivens(g: seq<Value>) {
    |g| == 81 && g[1] == 0 && g[5] == 0 && g[6] == 0 &&
    FirstEmpty(g) == Some(Pos(0, 1)) &&
    NextEmpty(g, At(Pos(0, 1))) == Some(Pos(0, 5)) && NextEmpty(g, At(Pos(0, 5))) == Some(Pos(0, 6))
  }

  lemma EasyGivenless()
    ensures IsEasyGivens(GivensOf(Easy))
  {
    var g := GivensOf(Easy);
    assert g[0] == 6 && g[1] == 0 && g[2] == 2 && g[3] == 4 && g[4] == 1 && g[5] == 0 && g[6] == 0;
    FirstEmptyFromUnique(g, 0, Pos(0, 1));
    FirstEmptyFromUnique(g, 2, Pos(0, 5));
    FirstEmptyFromUnique(g, 6, Pos(0, 6));
  }

  /** Row 0 and the top-left box of the easy puzzle. */
  lemma EasyTopLeft()
    ensures RowValues(Build(Easy, []), 0) == [6, 0, 2, 4, 1, 0, 0, 0, 8]
    ensures BoxValues(Build(Easy, []), Pos(0, 1)) == [6, 0, 2, 0, 1, 5, 7, 3, 4]
    ensures Build(Easy, [])[1].initialValue == 0 && Build(Easy, [])[5].initialValue == 0
  {
    var b := Build(Easy, []);
    assert BoxOrigin(Pos(0, 1)) == Pos(0, 0);
    assert b[0].GetValue() == 6 && b[1].GetValue() == 0 && b[2].GetValue() == 2;
    assert b[3].GetValue() == 4 && b[4].GetValue() == 1 && b[5].GetValue() == 0;
    assert b[6].GetValue() == 0 && b[7].GetValue() == 0 && b[8].GetValue() == 8;
    assert b[9].GetValue() == 0 && b[10].GetValue() == 1 && b[11].GetValue() == 5;
    assert b[18].GetValue() == 7 && b[19].GetValue() == 3 && b[20].GetValue() == 4;
  }

  /** Column 5 and the top-middle box of the easy puzzle. */
  lemma EasyTopMiddle()
    ensures ColValues(Build(Easy, []), 5) == [0, 3, 8, 4, 0, 7, 0, 0, 0]
    ensures BoxValues(Build(Easy, []), Pos(0, 5)) == [4, 1, 0, 7, 0, 3, 0, 0, 8]
  {
    var b := Build(Easy, []);
    assert BoxOrigin(Pos(0, 5)) == Pos(0, 3);
    assert b[5].GetValue() == 0 && b[14].GetValue() == 3 && b[23].GetValue() == 8;
    assert b[32].GetValue() == 4 && b[41].GetValue() == 0 && b[50].GetValue() == 7;
    assert b[59].GetValue() == 0 && b[68].GetValue() == 0 && b[77].GetValue() == 0;
    assert b[3].GetValue() == 4 && b[4].GetValue() == 1;
    assert b[12].GetValue() == 7 && b[13].GetValue() == 0;
    assert b[21].GetValue() == 0 && b[22].GetValue() == 0;
  }

  /** Column 6 and the top-right box of the easy puzzle. */
  lemma EasyTopRight()
    ensures ColValues(Build(Easy, []), 6) == [0, 0, 0, 0, 0, 0, 9, 2, 6]
    ensures BoxValues(Build(Easy, []), Pos(0, 6)) == [0, 0, 8, 0, 0, 9, 0, 6, 0]
  {
    var b := Build(Easy, []);
    assert BoxOrigin(Pos(0, 6)) == Pos(0, 6);
    assert b[6].GetValue() == 0 && b[15].GetValue() == 0 && b[24].GetValue() == 0;
    assert b[33].GetValue() == 0 && b[42].GetValue() == 0 && b[51].GetValue() == 0;
    assert b[60].GetValue() == 9 && b[69].GetValue() == 2 && b[78].GetValue() == 6;
    assert b[7].GetValue() == 0 && b[8].GetValue() == 8;
    assert b[16].GetValue() == 0 && b[17].GetValue() == 9;
    assert b[25].GetValue() == 6 && b[26].GetValue() == 0;
  }

  lemma EasyStart()
    ensures IsEasyStart(Build(Easy, []))
  {
    EasyTopLeft();
    EasyCol();
    EasyTopMiddle();
    EasyTopRight();
  }

  /** The candidates of a cell, as any increasing list of the digits missing from its row, column and box. */
  lemma CandidatesAre(b: Grid, p: Pos, row: seq<Value>, col: seq<Value>, box: seq<Value>, expected: seq<int>)
    requires RowValues(b, p.row) == row && ColValues(b, p.col) == col && BoxValues(b, p) == box
    requires row[p.col] == 0 && Increasing(expected)
    requires forall x :: x in expected <==> 1 <= x <= 9 && x !in row && x !in col && x !in box
    ensures Candidates(b, At(p)) == expected
  {
    var s := Candidates(b, At(p));
    assert ValueAt(b, p.row, p.col) == 0;
    forall x ensures x in s <==> x in expected {
      CandidateByUnits(b, p, x, row, col, box);
    }
    IncreasingUnique(s, expected);
  }

  /** Row 0, column 1 of the easy puzzle has the single candidate 9. */
  lemma EasyFirstCandidates(b: Grid)
    requires IsEasyStart(b)
    ensures Candidates(b, At(Pos(0, 1))) == [9]
  {
    forall x ensures x in [9] <==>
      1 <= x <= 9 && x !in [6, 0, 2, 4, 1, 0, 0, 0, 8] && x !in [0, 1, 3, 0, 0, 0, 5, 0, 8] && x !in [6, 0, 2, 0, 1, 5, 7, 3, 4]
    {
      if 1 <= x <= 9 {
        assert x in {1, 2, 3, 4, 5, 6, 7, 8, 9};
      }
    }
    CandidatesAre(b, Pos(0, 1),
      [6, 0, 2, 4, 1, 0, 0, 0, 8], [0, 1, 3, 0, 0, 0, 5, 0, 8], [6, 0, 2, 0, 1, 5, 7, 3, 4], [9]);
  }

  /** With 9 at row 0, column 1, row 0, column 5 has the single candidate 5. */
  lemma EasySecondCandidates(b: Grid)
    requires IsEasyStart(b)
    ensures Candidates(Write(b, Pos(0, 1), 9), At(Pos(0, 5))) == [5]
  {
    WriteRow(b, Pos(0, 1), 9);
    WriteOtherCol(b, Pos(0, 1), 9, 5);
    WriteOtherBox(b, Pos(0, 1), 9, Pos(0, 5));
    forall x ensures x in [5] <==>
      1 <= x <= 9 && x !in [6, 9, 2, 4, 1, 0, 0, 0, 8] && x !in [0, 3, 8, 4, 0, 7, 0, 0, 0] && x !in [4, 1, 0, 7, 0, 3, 0, 0, 8]
    {
      if 1 <= x <= 9 {
        assert x in {1, 2, 3, 4, 5, 6, 7, 8, 9};
      }
    }
    CandidatesAre(Write(b, Pos(0, 1), 9), Pos(0, 5),
      [6, 9, 2, 4, 1, 0, 0, 0, 8], [0, 3, 8, 4, 0, 7, 0, 0, 0], [4, 1, 0, 7, 0, 3, 0, 0, 8], [5]);
  }

  /**
   * With 9 at row 0, column 1 and 5 at row 0, column 5, every cell before
   * row 0, column 6 holds a value and that cell has the candidates 3 and 7.
   */
  lemma EasyThirdCandidates(b: Grid)
    requires IsEasyStart(b)
    ensures FilledBefore(Write(Write(b, Pos(0, 1), 9), Pos(0, 5), 5), Pos(0, 6))
    ensures Candidates(Write(Write(b, Pos(0, 1), 9), Pos(0, 5), 5), At(Pos(0, 6))) == [3, 7]
  {
    var b1 := Write(b, Pos(0, 1), 9);
    var b2 := Write(b1, Pos(0, 5), 5);
    WriteRow(b, Pos(0, 1), 9);
    WriteRow(b1, Pos(0, 5), 5);
    WriteOtherCol(b, Pos(0, 1), 9, 6);
    WriteOtherCol(b1, Pos(0, 5), 5, 6);
    WriteOtherBox(b, Pos(0, 1), 9, Pos(0, 6));
    WriteOtherBox(b1, Pos(0, 5), 5, Pos(0, 6));
    assert RowValues(b2, 0) == [6, 9, 2, 4, 1, 5, 0, 0, 8];
    forall i | 0 <= i < 6
      ensures b2[i].GetValue() != 0
    {
      assert RowValues(b2, 0)[i] == b2[i].GetValue();
    }
    forall x ensures x in [3, 7] <==>
      1 <= x <= 9 && x !in [6, 9, 2, 4, 1, 5, 0, 0, 8] && x !in [0, 0, 0, 0, 0, 0, 9, 2, 6] && x !in [0, 0, 8, 0, 0, 9, 0, 6, 0]
    {
      if 1 <= x <= 9 {
        assert x in {1, 2, 3, 4, 5, 6, 7, 8, 9};
      }
    }
    CandidatesAre(b2, Pos(0, 6),
      [6, 9, 2, 4, 1, 5, 0, 0, 8], [0, 0, 0, 0, 0, 0, 9, 2, 6], [0, 0, 8, 0, 0, 9, 0, 6, 0], [3, 7]);
  }

  /**
   * The walk of `backtracking` on the easy puzzle: 9 goes into row 0,
   * column 1 and 5 into row 0, column 5, each in place; row 0, column 6 has
   * the candidates 3 and 7, so 7 goes into a copy at row 0, column 1, and
   * the walk resumes at row 0, column 5, which already holds 5: a dead end.
   */
  lemma EasyWalk(b: Grid, g: seq<Value>, fuel: nat)
    requires IsEasyStart(b) && IsEasyGivens(g) && fuel >= 3
    ensures Walk(b, g, Pos(0, 1), fuel) == DeadEnd
  {
    EasyFirstCandidates(b);
    EasySecondCandidates(b);
    EasyThirdCandidates(b);
    WalkSingleSingleSeveral(b, g, fuel);
  }

  /** The shape of the easy puzzle's walk, from the candidates it meets. */
  lemma WalkSingleSingleSeveral(b: Grid, g: seq<Value>, fuel: nat)
    requires IsEasyGivens(g) && fuel >= 3
    requires Candidates(b, At(Pos(0, 1))) == [9]
    requires Candidates(Write(b, Pos(0, 1), 9), At(Pos(0, 5))) == [5]
    requires FilledBefore(Write(Write(b, Pos(0, 1), 9), Pos(0, 5), 5), Pos(0, 6))
    requires Candidates(Write(Write(b, Pos(0, 1), 9), Pos(0, 5), 5), At(Pos(0, 6))) == [3, 7]
    ensures Walk(b, g, Pos(0, 1), fuel) == DeadEnd
  {
    var b1 := Write(b, Pos(0, 1), 9);
    ResumeBehindIsDeadEnd(Write(b1, Pos(0, 5), 5), g, Pos(0, 6), fuel - 2);
    WalkSingleOn(b1, g, Pos(0, 5), 5, Pos(0, 6), fuel - 1);
    WalkSingleOn(b, g, Pos(0, 1), 9, Pos(0, 5), fuel);
  }

  /**
   * `backtracking` on the easy puzzle, given fuel for its three steps: no
   * grid, and the walk finished.
   */
  method EasyBacktracking(fuel: nat) returns (solutions: seq<SudokuGrid>, finished: bool)
    requires fuel >= 3
    ensures solutions == [] && finished
  {
    var sudoku := new SudokuGrid(Easy, []);
    ghost var b := Build(sudoku.initialValues, []);
    ghost var g := GivensOf(sudoku.initialValues);
    EasyStart();
    EasyGivenless();
    assert IsEasyStart(b) && IsEasyGivens(g);
    EasyWalk(b, g, fuel);
    solutions, finished := Backtracking.Backtracking(sudoku, fuel);
  }

  /** The solved puzzle with the given of row 0, column 1 taken away. */
  const OneHole: Layout := [
    [6, 0, 2, 4, 1, 5, 3, 7, 8],
    [8, 1, 5, 7, 6, 3, 4, 2, 9],
    [7, 3, 4, 9, 2, 8, 5, 6, 1],
    [5, 7, 3, 2, 8, 4, 1, 9, 6],
    [1, 2, 8, 3, 9, 6, 7, 4, 5],
    [9, 4, 6, 1, 5, 7, 8, 3, 2],
    [3, 5, 1, 6, 7, 2, 9, 8, 4],
    [4, 6, 9, 8, 3, 1, 2, 5, 7],
    [2, 8, 7, 5, 4, 9, 6, 1, 3]
  ]

  /** Row 0, column 1 and the top-left box of the one-hole grid. */
  lemma OneHoleUnits()
    ensures RowValues(Build(OneHole, []), 0) == [6, 0, 2, 4, 1, 5, 3, 7, 8]
    ensures ColValues(Build(OneHole, []), 1) == [0, 1, 3, 7, 2, 4, 5, 6, 8]
    ensures BoxValues(Build(OneHole, []), Pos(0, 1)) == [6, 0, 2, 8, 1, 5, 7, 3, 4]
  {
    var b := Build(OneHole, []);
    assert BoxOrigin(Pos(0, 1)) == Pos(0, 0);
    assert b[0].GetValue() == 6 && b[1].GetValue() == 0 && b[2].GetValue() == 2;
    assert b[3].GetValue() == 4 && b[4].GetValue() == 1 && b[5].GetValue() == 5;
    assert b[6].GetValue() == 3 && b[7].GetValue() == 7 && b[8].GetValue() == 8;
    assert b[10].GetValue() == 1 && b[19].GetValue() == 3 && b[28].GetValue() == 7;
    assert b[37].GetValue() == 2 && b[46].GetValue() == 4 && b[55].GetValue() == 5;
    assert b[64].GetValue() == 6 && b[73].GetValue() == 8;
    assert b[9].GetValue() == 8 && b[11].GetValue() == 5;
    assert b[18].GetValue() == 7 && b[20].GetValue() == 4;
  }

  /** The digits missing from row 0, column 1 and their box in the one-hole grid. */
  lemma OneHoleMissing(d: int)
    ensures IsCandidate(Build(OneHole, []), Pos(0, 1), d) <==> d == 9
  {
    OneHoleUnits();
    CandidateByUnits(Build(OneHole, []), Pos(0, 1), d,
      [6, 0, 2, 4, 1, 5, 3, 7, 8], [0, 1, 3, 7, 2, 4, 5, 6, 8], [6, 0, 2, 8, 1, 5, 7, 3, 4]);
    if 1 <= d <= 9 {
      assert d in {1, 2, 3, 4, 5, 6, 7, 8, 9};
    }
  }

  /** The hole's only candidate is 9. */
  lemma OneHoleCandidates()
    ensures Candidates(Build(OneHole, []), At(Pos(0, 1))) == [9]
  {
    var b := Build(OneHole, []);
    var s := Candidates(b, At(Pos(0, 1)));
    assert b[1].GetValue() == 0;
    forall x ensures x in s <==> x in [9] {
      OneHoleMissing(x);
    }
    IncreasingUnique(s, [9]);
  }

  /**
   * Any board that keeps the valued cells of the one-hole grid and has no
   * cell with a single candidate is complete: were the hole still empty, the
   * board would be the starting one, whose hole has the single candidate 9.
   */
  lemma OneHoleCompletes(after: Grid)
    requires KeepsValued(Build(OneHole, []), after) && NoSingleCandidate(after)
    ensures Complete(after)
  {
    var start := Build(OneHole, []);
    assert forall r: Coord, c: Coord :: r != 0 || c != 1 ==> Entry(OneHole, r, c) != 0;
    assert forall i :: 0 <= i < 81 && i != 1 ==> start[i].GetValue() != 0;
    if after[1].GetValue() == 0 {
      assert after == start;
      OneHoleCandidates();
      assert false;
    }
  }

  /** The expected `print` of the easy puzzle, line by line. */
  const EasyLines: seq<string> := [
    "-------------",
    "|6 2|41 |  8|",
    "| 15|7 3|  9|",
    "|734|  8| 6 |",
    "-------------",
    "|5 3|2 4|   |",
    "|  8| 9 |  5|",
    "|  6| 57| 3 |",
    "-------------",
    "| 5 | 7 |9 4|",
    "|4 9|   |25 |",
    "| 87|   |6 3|",
    "-------------"
  ]

  /** `print` of the easy puzzle as built: a space for every cell without a value. */
  lemma EasyPrint()
    ensures Render(Build(Easy, [])) == Join(EasyLines, '\n')
  {
    LayoutPrint(Easy, EasyLines);
  }

  /** `fillSingleGuesses` on the solved puzzle: it reports solved, and prints the puzzle unchanged. */
  method SolvedRun() returns (solved: bool, text: string)
    ensures solved
    ensures text == Join(SolvedLines, '\n')
  {
    var sudoku := new SudokuGrid(Solved, []);
    SolvedAllGiven();
    ghost var fills;
    solved, fills := FillSingleGuesses(sudoku);
    text := sudoku.Print();
    SolvedPrint();
  }

  /** `fillSingleGuesses` on the easy puzzle reports not solved, whatever it fills. */
  method EasyRun() returns (solved: bool)
    ensures !solved
  {
    var sudoku := new SudokuGrid(Easy, []);
    assert GivensOf(Easy)[1] == 0;
    FirstEmptyNoLater(GivensOf(Easy), Pos(0, 1));
    ghost var fills;
    solved, fills := FillSingleGuesses(sudoku);
  }

  /**
   * `fillSingleGuesses` on the one-hole grid: it fills the hole, so the grid
   * ends complete, yet it reports not solved; the corrected flag reports
   * solved.
   */
  method OneHoleRun() returns (solved: bool, complete: bool, reported: bool)
    ensures !solved && complete && reported
  {
    var sudoku := new SudokuGrid(OneHole, []);
    assert GivensOf(OneHole)[1] == 0;
    FirstEmptyNoLater(GivensOf(OneHole), Pos(0, 1));
    ghost var fills;
    solved, fills := FillSingleGuesses(sudoku);
    complete := Complete(sudoku.Cells());
    OneHoleCompletes(sudoku.Cells());
    var again := new SudokuGrid(OneHole, []);
    reported, fills := FillSingleGuessesReportingSolved(again);
    OneHoleCompletes(again.Cells());
  }

  /** A grid whose only given is a 9 at row 3, column 0. */
  const SingleGiven: Layout := [[], [], [], [9]]

  /** `b` is the single-given grid with guess `v` at row 0, column 0 (none when `v` is 0). */
  ghost predicate IsWalkBoard(b: Grid, v: Value) {
    b[0] == Cell(0, v) && b[27] == Cell(9, 0) &&
    forall i :: 0 < i < 81 && i != 27 ==> b[i] == Cell(0, 0)
  }

  /** A walk board is determined by its guess. */
  lemma WalkBoardUnique(a: Grid, b: Grid, v: Value)
    requires IsWalkBoard(a, v) && IsWalkBoard(b, v)
    ensures a == b
  {
    assert forall i :: 0 <= i < 81 ==> a[i] == b[i];
  }

  /** The givens of the single-given grid. */
  ghost predicate IsWalkGivens(givens: seq<Value>) {
    |givens| == 81 && givens[27] == 9 && forall i :: 0 <= i < 81 && i != 27 ==> givens[i] == 0
  }

  /** The single-given layout has the walk's givens and builds the walk board without a guess. */
  lemma SingleGivenGivens(m: Layout)
    requires m == SingleGiven
    ensures IsWalkGivens(GivensOf(m))
  {
  }

  lemma SingleGivenBuild()
    ensures IsWalkBoard(Build(SingleGiven, []), 0)
  {
  }

  /** The first given-less cell of the single-given grid is row 0, column 0. */
  lemma WalkFirstEmpty(givens: seq<Value>)
    requires IsWalkGivens(givens)
    ensures FirstEmpty(givens) == Some(Pos(0, 0))
  {
    FirstEmptyFromUnique(givens, 0, Pos(0, 0));
  }

  /** Writing `d` at row 0, column 0 of a walk board gives the walk board of `d`. */
  lemma WalkWrite(b: Grid, v: Value, d: Value)
    requires IsWalkBoard(b, v)
    ensures IsWalkBoard(Write(Snapshot(b), Pos(0, 0), d), d)
  {
    var s := Snapshot(b);
    assert s[27] == NewCell(9, 0) == Cell(9, 0);
    forall i | 0 < i < 81 && i != 27
      ensures s[i] == Cell(0, 0)
    {
      assert s[i] == NewCell(b[i].initialValue, b[i].GetValue());
    }
    assert s[0] == NewCell(0, v);
  }

  /** The given-less cell after row 0, column 0 is row 0, column 1. */
  lemma WalkNext(givens: seq<Value>)
    requires IsWalkGivens(givens)
    ensures NextEmpty(givens, At(Pos(0, 0))) == Some(Pos(0, 1))
  {
    FirstEmptyFromUnique(givens, 1, Pos(0, 1));
  }

  /** Row 0, columns 0 and 1 and the top-left box of a walk board. */
  lemma WalkUnits(b: Grid, v: Value)
    requires IsWalkBoard(b, v)
    ensures RowValues(b, 0) == [v, 0, 0, 0, 0, 0, 0, 0, 0]
    ensures ColValues(b, 0) == [v, 0, 0, 9, 0, 0, 0, 0, 0]
    ensures ColValues(b, 1) == [0, 0, 0, 0, 0, 0, 0, 0, 0]
    ensures BoxValues(b, Pos(0, 0)) == [v, 0, 0, 0, 0, 0, 0, 0, 0]
    ensures BoxValues(b, Pos(0, 1)) == [v, 0, 0, 0, 0, 0, 0, 0, 0]
  {
  }

  /** Before any guess, row 0, column 0 misses every digit but the 9 below it. */
  lemma WalkMissingFirst(b: Grid, x: int)
    requires IsWalkBoard(b, 0)
    ensures IsCandidate(b, Pos(0, 0), x) <==> 1 <= x <= 8
  {
    WalkUnits(b, 0);
    CandidateByUnits(b, Pos(0, 0), x,
      [0, 0, 0, 0, 0, 0, 0, 0, 0], [0, 0, 0, 9, 0, 0, 0, 0, 0], [0, 0, 0, 0, 0, 0, 0, 0, 0]);
    assert 9 in [0, 0, 0, 9, 0, 0, 0, 0, 0];
  }

  /** The candidates of row 0, column 0 before any guess, as any increasing list of 1 .. 8. */
  lemma WalkCandidatesFirstAre(b: Grid, expected: seq<int>)
    requires IsWalkBoard(b, 0) && Increasing(expected)
    requires forall x :: x in expected <==> 1 <= x <= 8
    ensures Candidates(b, At(Pos(0, 0))) == expected
  {
    var s := Candidates(b, At(Pos(0, 0)));
    forall x ensures x in s <==> x in expected {
      WalkMissingFirst(b, x);
    }
    IncreasingUnique(s, expected);
  }

  /** The candidates of row 0, column 0 before any guess: every digit but the 9 below it. */
  lemma WalkCandidatesFirst(b: Grid)
    requires IsWalkBoard(b, 0)
    ensures Candidates(b, At(Pos(0, 0))) == [1, 2, 3, 4, 5, 6, 7, 8]
  {
    forall x ensures x in [1, 2, 3, 4, 5, 6, 7, 8] <==> 1 <= x <= 8 {
      if 1 <= x <= 8 {
        assert x in {1, 2, 3, 4, 5, 6, 7, 8};
      }
    }
    WalkCandidatesFirstAre(b, [1, 2, 3, 4, 5, 6, 7, 8]);
  }

  /** The candidates of row 0, column 1 with guess `v` at row 0, column 0: every digit but `v`. */
  lemma WalkCandidatesSecond(b: Grid, v: Value, expected: seq<int>)
    requires IsWalkBoard(b, v) && v != 0 && Increasing(expected)
    requires forall x :: x in expected <==> 1 <= x <= 9 && x != v
    ensures Candidates(b, At(Pos(0, 1))) == expected
  {
    var s := Candidates(b, At(Pos(0, 1)));
    forall x ensures x in s <==> x in expected {
      WalkUnits(b, v);
      CandidateByUnits(b, Pos(0, 1), x,
        [v, 0, 0, 0, 0, 0, 0, 0, 0], [0, 0, 0, 0, 0, 0, 0, 0, 0], [v, 0, 0, 0, 0, 0, 0, 0, 0]);
    }
    IncreasingUnique(s, expected);
  }

  /** After guess 8 at row 0, column 0, the largest candidate of row 0, column 1 is 9. */
  lemma WalkCandidatesAfter8(b: Grid)
    requires IsWalkBoard(b, 8)
    ensures Candidates(b, At(Pos(0, 1))) == [1, 2, 3, 4, 5, 6, 7, 9]
  {
    forall x ensures x in [1, 2, 3, 4, 5, 6, 7, 9] <==> 1 <= x <= 9 && x != 8 {
      if 1 <= x <= 9 {
        assert x in {1, 2, 3, 4, 5, 6, 7, 8, 9};
      }
    }
    WalkCandidatesSecond(b, 8, [1, 2, 3, 4, 5, 6, 7, 9]);
  }

  /** After guess 9 at row 0, column 0, the largest candidate of row 0, column 1 is 8. */
  lemma WalkCandidatesAfter9(b: Grid)
    requires IsWalkBoard(b, 9)
    ensures Candidates(b, At(Pos(0, 1))) == [1, 2, 3, 4, 5, 6, 7, 8]
  {
    forall x ensures x in [1, 2, 3, 4, 5, 6, 7, 8] <==> 1 <= x <= 9 && x != 9 {
      if 1 <= x <= 8 {
        assert x in {1, 2, 3, 4, 5, 6, 7, 8};
      }
    }
    WalkCandidatesSecond(b, 9, [1, 2, 3, 4, 5, 6, 7, 8]);
  }

  /**
   * One step of the walk on the single-given grid at a cell with several
   * candidates: the largest candidate goes into a copy, at row 0, column 0,
   * and the walk goes on at row 0, column 1.
   */
  method WalkStep(g: SudokuGrid, p: Pos, v: Value, d: Value) returns (next: SudokuGrid, nextCell: Option<Pos>)
    requires g.Valid() && IsWalkGivens(GivensOf(g.initialValues)) && IsWalkBoard(g.Cells(), v)
    requires Index(p) != 27
    requires |Candidates(g.Cells(), At(p))| >= 2 && Candidates(g.Cells(), At(p))[|Candidates(g.Cells(), At(p))| - 1] == d
    ensures next.Valid() && next.initialValues == g.initialValues
    ensures IsWalkBoard(next.Cells(), d)
    ensures nextCell == Some(Pos(0, 1))
  {
    ghost var givens := GivensOf(g.initialValues);
    WalkFirstEmpty(givens);
    WalkWrite(g.Cells(), v, d);
    WalkNext(givens);
    var guesses := g.GetAvailableGuesses(At(p));
    assert givens[Index(p)] == 0;
    next, nextCell := CopyForEachGuess(g, p, guesses);
    assert next.Cells() == Write(Snapshot(g.Cells()), Pos(0, 0), d);
  }

  /**
   * The first three steps of `backtracking` on the single-given grid. Each
   * step meets a cell with several candidates, so it copies the grid and
   * writes the largest candidate into the copy's first given-less cell, row
   * 0, column 0, then goes on at row 0, column 1. The second step writes 9
   * there, under the given 9 of row 3, so the grid it passes on breaks the
   * column rule; the third step is back at the grid and the cell of the
   * first, so the walk repeats itself without end.
   */
  method SingleGivenWalk() returns (first: SudokuGrid, second: SudokuGrid, third: SudokuGrid, cell: Option<Pos>)
    ensures first.Valid() && second.Valid() && third.Valid()
    ensures IsWalkBoard(first.Cells(), 8) && IsWalkBoard(second.Cells(), 9)
    ensures !Consistent(second.Cells())
    ensures third.Cells() == first.Cells() && cell == Some(Pos(0, 1))
  {
    var grid := new SudokuGrid(SingleGiven, []);
    SingleGivenBuild();
    SingleGivenGivens(grid.initialValues);
    first, second, third, cell := WalkFrom(grid);
  }

  /** The three steps from a grid whose only given is a 9 at row 3, column 0, whatever its guesses. */
  method WalkFrom(grid: SudokuGrid) returns (first: SudokuGrid, second: SudokuGrid, third: SudokuGrid, cell: Option<Pos>)
    requires grid.Valid() && IsWalkGivens(GivensOf(grid.initialValues))
    requires IsWalkBoard(Build(grid.initialValues, []), 0)
    ensures first.Valid() && second.Valid() && third.Valid()
    ensures IsWalkBoard(first.Cells(), 8) && IsWalkBoard(second.Cells(), 9)
    ensures !Consistent(second.Cells())
    ensures third.Cells() == first.Cells() && cell == Some(Pos(0, 1))
  {
    var nextCell;
    first, nextCell := WalkFirst(grid);
    WalkCandidatesAfter8(first.Cells());
    second, nextCell := WalkStep(first, nextCell.value, 8, 9);
    WalkCandidatesAfter9(second.Cells());
    third, cell := WalkStep(second, nextCell.value, 9, 8);
    WalkBoardUnique(third.Cells(), first.Cells(), 8);
    WalkBreaksColumn(second.Cells());
  }

  /** On the empty walk board the last of several candidates at row 0, column 0 is 8. */
  lemma WalkLargestFirst(b: Grid)
    requires IsWalkBoard(b, 0)
    ensures |Candidates(b, At(Pos(0, 0)))| >= 2 && Candidates(b, At(Pos(0, 0)))[|Candidates(b, At(Pos(0, 0)))| - 1] == 8
  {
    WalkCandidatesFirst(b);
  }

  /** The first step: the empty copy, its first given-less cell, and the largest candidate, 8, written there. */
  method WalkFirst(grid: SudokuGrid) returns (first: SudokuGrid, nextCell: Option<Pos>)
    requires grid.Valid() && IsWalkGivens(GivensOf(grid.initialValues))
    requires IsWalkBoard(Build(grid.initialValues, []), 0)
    ensures first.Valid() && first.initialValues == grid.initialValues
    ensures IsWalkBoard(first.Cells(), 8) && nextCell == Some(Pos(0, 1))
  {
    var emptyGrid := grid.GetEmptyCopy();
    var firstCell := emptyGrid.GetFirstEmptyCell();
    WalkFirstEmpty(GivensOf(emptyGrid.initialValues));
    assert firstCell == Some(Pos(0, 0));
    ghost var b := emptyGrid.Cells();
    assert IsWalkBoard(b, 0);
    WalkLargestFirst(b);
    first, nextCell := WalkStep(emptyGrid, Pos(0, 0), 0, 8);
  }

  /** A 9 guessed at row 0, column 0 repeats the given 9 of column 0. */
  lemma WalkBreaksColumn(b: Grid)
    requires IsWalkBoard(b, 9)
    ensures !Consistent(b)
  {
    var p, q := Pos(0, 0), Pos(3, 0);
    assert Index(p) == 0 && Index(q) == 27 && SameUnit(p, q);
    assert b[Index(p)].GetValue() == 9 == b[Index(q)].GetValue();
  }

  /** The single given repeats nothing. */
  lemma SingleGivenConsistent()
    ensures Consistent(Build(SingleGiven, []))
  {
    SingleGivenBuild();
  }
}
