/**
 * Reading and writing tab- and pipe-separated tables line by line
 * (`getDSV` and `putTable` without the file handling): a line is split on
 * the separator and every cell unescaped; the first row is the header and
 * every later row is cut or padded with null to the header's width.
 */
module Dsv {
  import opened Tables
  import opened Text
  import opened Escapes

  /** Fields read from a file become string cells. */
  function Cells(fields: seq<string>): (r: Row)
    ensures |r| == |fields|
    ensures forall i :: 0 <= i < |fields| ==> r[i] == Str(fields[i])
  {
    seq(|fields|, i requires 0 <= i < |fields| => Str(fields[i]))
  }

  /** One line: trailing line breaks dropped, split on the separator, cells unescaped. */
  function DecodeLine(f: Format, e: Escaping, line: string): (r: seq<string>)
    ensures |r| >= 1
  {
    var parts := Split(RTrim(line, {'\n', '\r'}), Separator(f));
    seq(|parts|, i requires 0 <= i < |parts| => DecodeCell(f, e, parts[i]))
  }

  /** The escaped cells of a row; null is written as the empty string. */
  function EncodedCells(f: Format, e: Escaping, row: Row): seq<string>
  {
    seq(|row|, i requires 0 <= i < |row| => EncodeCell(f, e, Key(row[i])))
  }

  /** One written line: the escaped cells joined by the separator, then a line break. */
  function EncodeLine(f: Format, e: Escaping, row: Row): string
  {
    Join(EncodedCells(f, e, row), Separator(f)) + "\n"
  }

  /**
   * The header and the equalised rows: the first row names the columns and
   * every other row keeps as many of its fields as there are columns,
   * padded with null where it is short.
   */
  function FromRows(rows: seq<seq<string>>): (t: Table)
    ensures |rows| == 0 ==> t == Table([], [])
    ensures |rows| > 0 ==> t.columns == rows[0] && |t.data| == |rows| - 1
    ensures WellFormed(t)
    ensures forall i, j :: 0 <= i < |t.data| && 0 <= j < |t.columns| ==>
      t.data[i][j] == if j < |rows[i + 1]| then Str(rows[i + 1][j]) else Null
  {
    if |rows| == 0 then Table([], [])
    else
      var n := |rows[0]|;
      Table(rows[0], seq(|rows| - 1, i requires 0 <= i < |rows| - 1 => Equalise(Cells(rows[i + 1]), n)))
  }

  /** Every line of a file decoded. */
  function DecodeLines(f: Format, e: Escaping, lines: seq<string>): (r: seq<seq<string>>)
    ensures |r| == |lines|
    ensures forall i :: 0 <= i < |lines| ==> r[i] == DecodeLine(f, e, lines[i])
  {
    seq(|lines|, i requires 0 <= i < |lines| => DecodeLine(f, e, lines[i]))
  }

  /** A tab- or pipe-separated file, given as its lines, read into a table. */
  function DecodeDsv(f: Format, e: Escaping, lines: seq<string>): Table
  {
    FromRows(DecodeLines(f, e, lines))
  }

  /** The lines written for a table: the header first, then every row. */
  function EncodeDsv(f: Format, e: Escaping, t: Table): seq<string>
  {
    [EncodeLine(f, e, Cells(t.columns))] + EncodeLines(f, e, t.data)
  }

  /** Every row written as a line. */
  function EncodeLines(f: Format, e: Escaping, rows: seq<Row>): (r: seq<string>)
    ensures |r| == |rows|
    ensures forall i :: 0 <= i < |rows| ==> r[i] == EncodeLine(f, e, rows[i])
  {
    seq(|rows|, i requires 0 <= i < |rows| => EncodeLine(f, e, rows[i]))
  }

  /** Writing the first `i + 1` rows adds the line of row `i`; all rows make up the whole. */
  lemma EncodeLinesStep(f: Format, e: Escaping, rows: seq<Row>, i: nat)
    requires i <= |rows|
    ensures i < |rows| ==> EncodeLines(f, e, rows[..i + 1]) == EncodeLines(f, e, rows[..i]) + [EncodeLine(f, e, rows[i])]
    ensures i == |rows| ==> EncodeLines(f, e, rows[..i]) == EncodeLines(f, e, rows)
  {
    if i == |rows| {
      assert rows[..i] == rows;
    }
  }

  /** The strings a row is written as: null is the empty string. */
  function Keys(row: Row): (r: seq<string>)
    ensures |r| == |row|
    ensures forall j :: 0 <= j < |row| ==> r[j] == Key(row[j])
  {
    seq(|row|, j requires 0 <= j < |row| => Key(row[j]))
  }

  /** A row as it reads back: every null has become the empty string. */
  function NullsToEmpty(row: Row): (r: Row)
    ensures |r| == |row|
  {
    seq(|row|, i requires 0 <= i < |row| => Str(Key(row[i])))
  }

  /** Every cell and column name survives the cell codec chosen. */
  ghost predicate Escapable(f: Format, e: Escaping, t: Table)
  {
    e == Corrected ||
    ((forall j :: 0 <= j < |t.columns| ==> NoLiteralEscape(f, t.columns[j])) &&
     (forall i, j :: 0 <= i < |t.data| && 0 <= j < |t.data[i]| ==> NoLiteralEscape(f, Key(t.data[i][j]))))
  }

  /** Joined parts avoid every character that the parts and the separator avoid. */
  lemma {:induction false} JoinAvoids(parts: seq<string>, sep: char, chars: set<char>)
    requires sep !in chars
    requires forall i, k :: 0 <= i < |parts| && 0 <= k < |parts[i]| ==> parts[i][k] !in chars
    ensures forall k :: 0 <= k < |Join(parts, sep)| ==> Join(parts, sep)[k] !in chars
    decreases |parts|
  {
    if |parts| > 1 {
      JoinAvoids(parts[1..], sep, chars);
      var j := Join(parts, sep);
      assert j == parts[0] + [sep] + Join(parts[1..], sep);
      forall k | 0 <= k < |j| ensures j[k] !in chars {
        if k > |parts[0]| {
          assert j[k] == Join(parts[1..], sep)[k - |parts[0]| - 1];
        } else if k < |parts[0]| {
          assert j[k] == parts[0][k];
        }
      }
    }
  }

  /** Stripping line breaks from a written line gives back the joined cells. */
  lemma RTrimWritten(j: string)
    requires forall k :: 0 <= k < |j| ==> j[k] !in {'\n', '\r'}
    ensures RTrim(j + "\n", {'\n', '\r'}) == j
  {
    var chars := {'\n', '\r'};
    var s := j + "\n";
    assert s[|s| - 1] == '\n' && s[..|s| - 1] == j;
    assert RTrim(s, chars) == RTrim(j, chars);
    if |j| > 0 {
      assert j[|j| - 1] !in chars;
    }
  }

  /** No escaped cell holds a line break or the separator. */
  lemma CellsClean(f: Format, e: Escaping, row: Row)
    ensures forall j, k :: 0 <= j < |row| && 0 <= k < |EncodedCells(f, e, row)[j]| ==>
      EncodedCells(f, e, row)[j][k] !in {'\n', '\r'}
    ensures forall j :: 0 <= j < |row| ==> Separator(f) !in EncodedCells(f, e, row)[j]
  {
    var cells := EncodedCells(f, e, row);
    forall j | 0 <= j < |row|
      ensures forall k :: 0 <= k < |cells[j]| ==> cells[j][k] !in Special(f)
    {
      EncodeClean(f, e, Key(row[j]));
    }
  }

  /** Dropping the line break and splitting a written line gives back the escaped cells. */
  lemma SplitWritten(f: Format, e: Escaping, row: Row)
    requires |row| >= 1
    ensures Split(RTrim(EncodeLine(f, e, row), {'\n', '\r'}), Separator(f)) == EncodedCells(f, e, row)
  {
    var cells := EncodedCells(f, e, row);
    var joined := Join(cells, Separator(f));
    CellsClean(f, e, row);
    JoinAvoids(cells, Separator(f), {'\n', '\r'});
    RTrimWritten(joined);
    SplitJoin(cells, Separator(f));
  }

  /**
   * A row of at least one cell reads back as written, with nulls read as
   * empty strings, when its cells survive the cell codec.
   */
  lemma LineRoundTrip(f: Format, e: Escaping, row: Row)
    requires |row| >= 1
    requires e == Corrected || forall j :: 0 <= j < |row| ==> NoLiteralEscape(f, Key(row[j]))
    ensures DecodeLine(f, e, EncodeLine(f, e, row)) == Keys(row)
  {
    var cells := EncodedCells(f, e, row);
    SplitWritten(f, e, row);
    var r := DecodeLine(f, e, EncodeLine(f, e, row));
    assert |r| == |row|;
    forall j | 0 <= j < |row| ensures r[j] == Key(row[j]) {
      assert r[j] == DecodeCell(f, e, cells[j]);
      CellRoundTrip(f, e, Key(row[j]));
    }
  }

  /** A header line reads back as the column names. */
  lemma HeaderRoundTrip(f: Format, e: Escaping, columns: seq<string>)
    requires |columns| >= 1
    requires e == Corrected || forall j :: 0 <= j < |columns| ==> NoLiteralEscape(f, columns[j])
    ensures DecodeLine(f, e, EncodeLine(f, e, Cells(columns))) == columns
  {
    LineRoundTrip(f, e, Cells(columns));
    assert Keys(Cells(columns)) == columns;
  }

  /** The header and equalised rows of a written table's fields are the table with nulls emptied. */
  lemma FromWrittenRows(t: Table, rows: seq<seq<string>>)
    requires WellFormed(t)
    requires |rows| == |t.data| + 1 && rows[0] == t.columns
    requires forall i :: 0 <= i < |t.data| ==> rows[i + 1] == Keys(t.data[i])
    ensures FromRows(rows) ==
      Table(t.columns, seq(|t.data|, i requires 0 <= i < |t.data| => NullsToEmpty(t.data[i])))
  {
    var r := FromRows(rows);
    forall i | 0 <= i < |t.data| ensures r.data[i] == NullsToEmpty(t.data[i]) {
      assert |r.data[i]| == |t.columns| == |t.data[i]|;
    }
  }

  /**
   * Writing a well-formed table with at least one column and reading it back
   * gives the same header and rows, except that null cells read back as
   * empty strings.
   */
  lemma TableRoundTrip(f: Format, e: Escaping, t: Table)
    requires WellFormed(t) && |t.columns| >= 1
    requires Escapable(f, e, t)
    ensures DecodeDsv(f, e, EncodeDsv(f, e, t)) ==
      Table(t.columns, seq(|t.data|, i requires 0 <= i < |t.data| => NullsToEmpty(t.data[i])))
  {
    var lines := EncodeDsv(f, e, t);
    var rows := DecodeLines(f, e, lines);
    HeaderRoundTrip(f, e, t.columns);
    assert rows[0] == t.columns;
    forall i | 0 <= i < |t.data| ensures rows[i + 1] == Keys(t.data[i]) {
      assert lines[i + 1] == EncodeLines(f, e, t.data)[i];
      LineRoundTrip(f, e, t.data[i]);
    }
    FromWrittenRows(t, rows);
  }

  /**
   * The end of `getDSV`, shared by every format: the first row is shifted
   * off as the header and every remaining row is equalised in place to the
   * header's width.
   */
  method ShiftHeader(rows: seq<seq<string>>) returns (t: Table)
    ensures t == FromRows(rows)
  {
    if |rows| == 0 {
      return Table([], []);
    }
    var columns := rows[0];
    var data: seq<Row> := seq(|rows| - 1, k requires 0 <= k < |rows| - 1 => Cells(rows[k + 1]));
    var j := 0;
    while j < |data|
      invariant 0 <= j <= |data| == |rows| - 1
      invariant forall k :: 0 <= k < j ==> data[k] == Equalise(Cells(rows[k + 1]), |columns|)
      invariant forall k :: j <= k < |data| ==> data[k] == Cells(rows[k + 1])
    {
      data := data[j := Equalise(data[j], |columns|)];
      j := j + 1;
    }
    t := Table(columns, data);
  }

  /**
   * `getDSV` for the tab- and pipe-separated formats, from the lines of the
   * file: every line is decoded and appended, then the header is taken off.
   */
  method GetDsv(f: Format, lines: seq<string>) returns (t: Table)
    ensures t == DecodeDsv(f, AsWritten, lines)
  {
    var rows: seq<seq<string>> := [];
    var i := 0;
    while i < |lines|
      invariant 0 <= i <= |lines|
      invariant rows == DecodeLines(f, AsWritten, lines[..i])
    {
      rows := rows + [DecodeLine(f, AsWritten, lines[i])];
      i := i + 1;
      assert rows == DecodeLines(f, AsWritten, lines[..i]) by {
        assert lines[..i][..i - 1] == lines[..i - 1];
      }
    }
    assert lines[..i] == lines;
    t := ShiftHeader(rows);
  }

  /**
   * `putTable` for the tab- and pipe-separated formats: nothing for an absent
   * table, otherwise the header line and one line per row.
   */
  method PutDsv(f: Format, table: Option<Table>) returns (out: Option<seq<string>>)
    ensures table.None? ==> out.None?
    ensures table.Some? ==> out == Some(EncodeDsv(f, AsWritten, table.value))
  {
    if table.None? {
      return None;
    }
    var t := table.value;
    var header := EncodeLine(f, AsWritten, Cells(t.columns));
    var written := [header];
    var i := 0;
    while i < |t.data|
      invariant 0 <= i <= |t.data|
      invariant written == [header] + EncodeLines(f, AsWritten, t.data[..i])
    {
      var line := EncodeLine(f, AsWritten, t.data[i]);
      EncodeLinesStep(f, AsWritten, t.data, i);
      written := written + [line];
      i := i + 1;
    }
    EncodeLinesStep(f, AsWritten, t.data, i);
    out := Some(written);
  }
}
