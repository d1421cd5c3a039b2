/**
 * `print`: 13 lines joined by a newline, no newline at the end. A 13-dash
 * separator stands before rows 0, 3 and 6 and after row 8; a data row is
 * `|ddd|ddd|ddd|` with a space for a cell without a value.
 */
module Text {
  import opened Board

  const Separator: string := "-------------"

  /** `${value || " "}`: the digit, or a space for `null`. */
  function DigitChar(v: Value): char {
    if v == 0 then ' ' else ('0' as int + v) as char
  }

  /** The parts of data row `row` for columns 0 .. `col` - 1, joined: a bar before columns 0, 3 and 6, then the cell. */
  function RowPrefix(b: Grid, row: Coord, col: nat): string
    requires col <= 9
  {
    if col == 0 then ""
    else RowPrefix(b, row, col - 1) + (if (col - 1) % 3 == 0 then "|" else "") + [D(b, row, col - 1)]
  }

  /** A data row: its nine parts and a closing bar. */
  function RowText(b: Grid, row: Coord): string {
    RowPrefix(b, row, 9) + "|"
  }

  /** The nine data rows. */
  function Rows(b: Grid): (rows: seq<string>)
    ensures |rows| == 9
  {
    seq(9, row requires 0 <= row < 9 => RowText(b, row))
  }

  /** The lines of data rows 0 .. `row` - 1: each preceded by a separator when its index is a multiple of 3. */
  function PartsBefore(rows: seq<string>, row: nat): seq<string>
    requires row <= |rows|
  {
    if row == 0 then []
    else PartsBefore(rows, row - 1) + (if (row - 1) % 3 == 0 then [Separator] else []) + [rows[row - 1]]
  }

  /** All the lines: the data rows with their separators, and a separator after row 8. */
  function Parts(b: Grid): seq<string> {
    PartsBefore(Rows(b), 9) + [Separator]
  }

  /** `parts.join(sep)`. */
  function Join(parts: seq<string>, sep: char): string {
    if |parts| == 0 then ""
    else if |parts| == 1 then parts[0]
    else parts[0] + [sep] + Join(parts[1..], sep)
  }

  /** The text of the whole board. */
  function Render(b: Grid): string {
    Join(Parts(b), '\n')
  }

  /** The character of the cell at (`row`, `col`). */
  function D(b: Grid, row: Coord, col: Coord): char {
    DigitChar(ValueAt(b, row, col))
  }

  /** Index `n + ceil(n / 3)`, where item `n` of a row or of the lines goes, is a multiple of 4 only at a group start. */
  lemma GroupStart(n: nat)
    ensures (n + (n + 2) / 3) % 4 == 0 ==> n % 3 == 0
  {
    var q, r := n / 3, n % 3;
    assert (n + 2) / 3 == q + (if r == 0 then 0 else 1);
    assert n + (n + 2) / 3 == 4 * q + r + (if r == 0 then 0 else 1);
  }

  /** The parts of columns 0 .. `col` - 1 take `col + ceil(col / 3)` characters. */
  lemma {:induction false} RowPrefixLength(b: Grid, row: Coord, col: nat)
    requires col <= 9
    ensures |RowPrefix(b, row, col)| == col + (col + 2) / 3
  {
    if col > 0 {
      RowPrefixLength(b, row, col - 1);
    }
  }

  /** The parts of columns 0 .. `col` - 1 have a bar at every index that is a multiple of 4. */
  lemma {:induction false} RowPrefixBars(b: Grid, row: Coord, col: nat)
    requires col <= 9
    ensures forall j :: 0 <= j < |RowPrefix(b, row, col)| && j % 4 == 0 ==> RowPrefix(b, row, col)[j] == '|'
  {
    if col > 0 {
      RowPrefixBars(b, row, col - 1);
      RowPrefixLength(b, row, col - 1);
      var prev := RowPrefix(b, row, col - 1);
      var bar: string := if (col - 1) % 3 == 0 then "|" else "";
      var text := prev + bar + [D(b, row, col - 1)];
      forall j | 0 <= j < |text| && j % 4 == 0
        ensures text[j] == '|'
      {
        if j >= |prev| {
          GroupStart(col - 1);
        } else {
          assert text[j] == prev[j];
        }
      }
    }
  }

  /** The parts of columns 0 .. `col` - 1 hold cell `c` at index `1 + c + c / 3`. */
  lemma {:induction false} RowPrefixCells(b: Grid, row: Coord, col: nat)
    requires col <= 9
    ensures |RowPrefix(b, row, col)| == col + (col + 2) / 3
    ensures forall c :: 0 <= c < col ==> RowPrefix(b, row, col)[1 + c + c / 3] == D(b, row, c)
  {
    RowPrefixLength(b, row, col);
    if col > 0 {
      RowPrefixCells(b, row, col - 1);
      var prev := RowPrefix(b, row, col - 1);
      var bar: string := if (col - 1) % 3 == 0 then "|" else "";
      var text := prev + bar + [D(b, row, col - 1)];
      forall c | 0 <= c < col
        ensures text[1 + c + c / 3] == D(b, row, c)
      {
        if c < col - 1 {
          assert 1 + c + c / 3 < |prev|;
        }
      }
    }
  }

  /** A data row is `|ddd|ddd|ddd|`: 13 characters, bars at 0, 4, 8 and 12, cell `col` at `1 + col + col / 3`. */
  lemma RowTextLayout(b: Grid, row: Coord)
    ensures |RowText(b, row)| == 13
    ensures forall j :: 0 <= j < 13 && j % 4 == 0 ==> RowText(b, row)[j] == '|'
    ensures forall col: Coord :: RowText(b, row)[1 + col + col / 3] == D(b, row, col)
  {
    RowPrefixBars(b, row, 9);
    RowPrefixCells(b, row, 9);
  }

  /** The lines before data row `row` are `row + ceil(row / 3)` in number. */
  lemma {:induction false} PartsBeforeLength(rows: seq<string>, row: nat)
    requires row <= |rows|
    ensures |PartsBefore(rows, row)| == row + (row + 2) / 3
  {
    if row > 0 {
      PartsBeforeLength(rows, row - 1);
    }
  }

  /** The lines before data row `row` have a separator at every index that is a multiple of 4. */
  lemma {:induction false} PartsBeforeSeparators(rows: seq<string>, row: nat)
    requires row <= |rows|
    ensures forall k :: 0 <= k < |PartsBefore(rows, row)| && k % 4 == 0 ==> PartsBefore(rows, row)[k] == Separator
  {
    if row > 0 {
      PartsBeforeSeparators(rows, row - 1);
      PartsBeforeLength(rows, row - 1);
      var prev := PartsBefore(rows, row - 1);
      var sep: seq<string> := if (row - 1) % 3 == 0 then [Separator] else [];
      var parts := prev + sep + [rows[row - 1]];
      forall k | 0 <= k < |parts| && k % 4 == 0
        ensures parts[k] == Separator
      {
        if k >= |prev| {
          GroupStart(row - 1);
        } else {
          assert parts[k] == prev[k];
        }
      }
    }
  }

  /** The lines before data row `row` hold data row `r` at index `1 + r + r / 3`. */
  lemma {:induction false} PartsBeforeRows(rows: seq<string>, row: nat)
    requires row <= |rows|
    ensures |PartsBefore(rows, row)| == row + (row + 2) / 3
    ensures forall r :: 0 <= r < row ==> PartsBefore(rows, row)[1 + r + r / 3] == rows[r]
  {
    PartsBeforeLength(rows, row);
    if row > 0 {
      PartsBeforeRows(rows, row - 1);
      var prev := PartsBefore(rows, row - 1);
      var sep: seq<string> := if (row - 1) % 3 == 0 then [Separator] else [];
      var parts := prev + sep + [rows[row - 1]];
      forall r | 0 <= r < row
        ensures parts[1 + r + r / 3] == rows[r]
      {
        if r < row - 1 {
          assert 1 + r + r / 3 < |prev|;
        }
      }
    }
  }

  /** Thirteen lines: a separator at lines 0, 4, 8 and 12, data row `r` at line `1 + r + r / 3`. */
  lemma PartsLayout(b: Grid)
    ensures |Parts(b)| == 13
    ensures forall k :: 0 <= k < 13 && k % 4 == 0 ==> Parts(b)[k] == Separator
    ensures forall r :: 0 <= r < 9 ==> Parts(b)[1 + r + r / 3] == Rows(b)[r]
  {
    PartsBeforeSeparators(Rows(b), 9);
    PartsBeforeRows(Rows(b), 9);
  }

  /** Parts of 13 characters joined by one separator character: 14 characters per part, less one. */
  lemma {:induction false} JoinLayout(parts: seq<string>, sep: char)
    requires |parts| >= 1
    requires forall k :: 0 <= k < |parts| ==> |parts[k]| == 13
    ensures |Join(parts, sep)| == 14 * |parts| - 1
    ensures forall k, j :: 0 <= k < |parts| && 0 <= j < 13 ==> Join(parts, sep)[14 * k + j] == parts[k][j]
    ensures forall k :: 0 <= k < |parts| - 1 ==> Join(parts, sep)[14 * k + 13] == sep
  {
    if |parts| > 1 {
      var rest := Join(parts[1..], sep);
      JoinLayout(parts[1..], sep);
      assert Join(parts, sep) == parts[0] + [sep] + rest;
      forall k, j | 0 <= k < |parts| && 0 <= j < 13
        ensures Join(parts, sep)[14 * k + j] == parts[k][j]
      {
        if k > 0 {
          assert Join(parts, sep)[14 * k + j] == rest[14 * (k - 1) + j];
          assert parts[1..][k - 1] == parts[k];
        }
      }
      forall k | 0 <= k < |parts| - 1
        ensures Join(parts, sep)[14 * k + 13] == sep
      {
        if k > 0 {
          assert Join(parts, sep)[14 * k + 13] == rest[14 * (k - 1) + 13];
        }
      }
    }
  }

  /**
   * The rendering is 13 lines of 13 characters joined by newlines, with no
   * newline at the end: 181 characters, line `k` starting at 14 * k.
   */
  lemma RenderLines(b: Grid)
    ensures |Render(b)| == 181
    ensures |Parts(b)| == 13 && forall k :: 0 <= k < 13 ==> |Parts(b)[k]| == 13
    ensures forall i :: 0 <= i < 181 && i % 14 == 13 ==> Render(b)[i] == '\n'
    ensures forall i :: 0 <= i < 181 && i % 14 != 13 ==> Render(b)[i] == Parts(b)[i / 14][i % 14]
  {
    var lines := Parts(b);
    PartsLayout(b);
    RowsLayout(b);
    assert |Separator| == 13;
    forall k | 0 <= k < 13
      ensures |lines[k]| == 13
    {
      if k % 4 != 0 {
        var r := RowOfLine(k);
        assert lines[k] == Rows(b)[r];
      } else {
        assert lines[k] == Separator;
      }
    }
    JoinLayout(lines, '\n');
    forall i | 0 <= i < 181 && i % 14 == 13
      ensures Render(b)[i] == '\n'
    {
      assert i == 14 * (i / 14) + 13;
    }
    forall i | 0 <= i < 181 && i % 14 != 13
      ensures Render(b)[i] == lines[i / 14][i % 14]
    {
      assert i == 14 * (i / 14) + i % 14;
    }
  }

  /** Lines 0, 4, 8 and 12 are 13 dashes. */
  lemma RenderSeparators(b: Grid)
    ensures |Render(b)| == 181
    ensures forall i :: 0 <= i < 181 && i / 14 in {0, 4, 8, 12} && i % 14 != 13 ==> Render(b)[i] == '-'
  {
    RenderLines(b);
    PartsLayout(b);
    forall i | 0 <= i < 181 && i / 14 in {0, 4, 8, 12} && i % 14 != 13
      ensures Render(b)[i] == '-'
    {
      assert Parts(b)[i / 14] == Separator;
    }
  }

  /** The other lines are data rows with bars at characters 0, 4, 8 and 12. */
  lemma RenderBars(b: Grid)
    ensures |Render(b)| == 181
    ensures forall i :: 0 <= i < 181 && i / 14 !in {0, 4, 8, 12} && i % 14 in {0, 4, 8, 12} ==> Render(b)[i] == '|'
  {
    RenderLines(b);
    PartsLayout(b);
    RowsLayout(b);
    forall i | 0 <= i < 181 && i / 14 !in {0, 4, 8, 12} && i % 14 in {0, 4, 8, 12}
      ensures Render(b)[i] == '|'
    {
      var k, j := i / 14, i % 14;
      assert k < 13 && k % 4 != 0;
      var r := RowOfLine(k);
      assert Parts(b)[k] == Rows(b)[r];
      assert Rows(b)[r][j] == '|';
      assert Render(b)[i] == Parts(b)[k][j];
    }
  }

  /** The cell (`row`, `col`) is character `1 + col + col / 3` of line `1 + row + row / 3`. */
  lemma RenderCells(b: Grid)
    ensures |Render(b)| == 181
    ensures forall row: Coord, col: Coord ::
      Render(b)[14 * (1 + row + row / 3) + 1 + col + col / 3] == D(b, row, col)
  {
    RenderLines(b);
    PartsLayout(b);
    RowsLayout(b);
    forall row: Coord, col: Coord
      ensures Render(b)[14 * (1 + row + row / 3) + 1 + col + col / 3] == D(b, row, col)
    {
      var k, j := 1 + row + row / 3, 1 + col + col / 3;
      assert (14 * k + j) / 14 == k && (14 * k + j) % 14 == j;
      assert Parts(b)[k] == Rows(b)[row];
    }
  }

  /** The data row on line `k`, for a line that is not a separator. */
  lemma RowOfLine(k: int) returns (r: int)
    requires 0 <= k < 13 && k % 4 != 0
    ensures 0 <= r < 9 && 1 + r + r / 3 == k
  {
    r := if k < 4 then k - 1 else if k < 8 then k - 2 else k - 3;
  }

  /** Every data row is 13 characters: bars at 0, 4, 8 and 12, cell `col` at `1 + col + col / 3`. */
  lemma RowsLayout(b: Grid)
    ensures forall r :: 0 <= r < 9 ==> |Rows(b)[r]| == 13
    ensures forall r, j :: 0 <= r < 9 && 0 <= j < 13 && j % 4 == 0 ==> Rows(b)[r][j] == '|'
    ensures forall r: Coord, col: Coord :: Rows(b)[r][1 + col + col / 3] == D(b, r, col)
  {
    forall r: Coord
      ensures |Rows(b)[r]| == 13
      ensures forall j :: 0 <= j < 13 && j % 4 == 0 ==> Rows(b)[r][j] == '|'
      ensures forall col: Coord :: Rows(b)[r][1 + col + col / 3] == D(b, r, col)
    {
      RowTextLayout(b, r);
    }
  }
}
