/** The naive CSV reader and writer of the editor: text is cut into lines at
    every newline and each line into cells at every comma; there is no quoting
    and no escaping, so a comma or newline inside a value cannot be told from a
    separator. */
module Csv {
  import opened Text
  import opened Filtering

  type Row = seq<string>

  /** The two pieces of state a file load produces. */
  datatype Table = Table(header: Row, rows: seq<Row>)

  /** The characters `String.prototype.trim` removes: the ECMAScript
      WhiteSpace production (tab, vertical tab, form feed, space, no-break
      space, byte order mark and the other space separators of Unicode
      category Zs) and the LineTerminator production (line feed, carriage
      return, line separator, paragraph separator). */
  predicate IsSpace(c: char)
  {
    || c == '\t' || c == '\n' || c == '\U{000B}' || c == '\U{000C}' || c == '\r'
    || c == ' ' || c == '\U{00A0}' || c == '\U{1680}'
    || ('\U{2000}' <= c <= '\U{200A}')
    || c == '\U{2028}' || c == '\U{2029}' || c == '\U{202F}' || c == '\U{205F}'
    || c == '\U{3000}' || c == '\U{FEFF}'
  }

  ghost predicate AllSpace(s: string)
  {
    forall k :: 0 <= k < |s| ==> IsSpace(s[k])
  }

  /** How many white-space characters `s` starts with. */
  function LeadingSpaces(s: string): (n: nat)
    ensures n <= |s|
    ensures forall k :: 0 <= k < n ==> IsSpace(s[k])
    ensures n < |s| ==> !IsSpace(s[n])
  {
    if s != [] && IsSpace(s[0]) then 1 + LeadingSpaces(s[1..]) else 0
  }

  /** How many white-space characters `s` ends with. */
  function TrailingSpaces(s: string): (n: nat)
    ensures n <= |s|
    ensures forall k :: |s| - n <= k < |s| ==> IsSpace(s[k])
    ensures n < |s| ==> !IsSpace(s[|s| - n - 1])
  {
    if s != [] && IsSpace(s[|s| - 1]) then 1 + TrailingSpaces(s[..|s| - 1]) else 0
  }

  /** `s.trim()`: the cell without white space at either end. It is the
      middle of the cell, with only white space cut off in front and behind;
      it is empty exactly when the cell is made of white space only (the
      empty cell included), and otherwise it neither starts nor ends with
      white space. */
  function Trim(s: string): (r: string)
    ensures exists i, j :: 0 <= i <= j <= |s| && r == s[i..j] && AllSpace(s[..i]) && AllSpace(s[j..])
    ensures r == "" <==> AllSpace(s)
    ensures r != "" ==> !IsSpace(r[0]) && !IsSpace(r[|r| - 1])
  {
    var i := LeadingSpaces(s);
    var j := TrailingSpaces(s[i..]);
    assert i < |s| ==> s[i..][0] == s[i];
    assert AllSpace(s[..i]);
    var back := s[|s| - j..];
    assert AllSpace(back) by {
      forall k | 0 <= k < |back|
        ensures IsSpace(back[k])
      {
        assert back[k] == s[i..][|s| - i - j + k];
      }
    }
    s[i..|s| - j]
  }

  /** `row.some(cell => cell.trim() !== '')`: some cell is not blank. */
  predicate HasContent(row: Row)
  {
    row != [] && (Trim(row[0]) != "" || HasContent(row[1..]))
  }

  /** `line.split(',')` for every line. */
  function SplitLines(lines: seq<string>): (rows: seq<Row>)
    ensures |rows| == |lines|
  {
    seq(|lines|, k requires 0 <= k < |lines| => Split(lines[k], ','))
  }

  /** `row.join(',')` for every row. */
  function JoinRows(rows: seq<Row>): (lines: seq<string>)
    ensures |lines| == |rows|
  {
    seq(|rows|, k requires 0 <= k < |rows| => Join(rows[k], ','))
  }

  /** The file-load step: the first line is the header, and the later lines
      are the data rows, except those whose cells are all blank. */
  function Parse(text: string): (t: Table)
    ensures |t.header| >= 1
  {
    var rows := SplitLines(Split(text, '\n'));
    Table(rows[0], Filter(rows[1..], HasContent))
  }

  /** The download step: header first, then the rows, cells joined with
      commas and lines with newlines. */
  function Serialize(header: Row, rows: seq<Row>): string
  {
    Join(JoinRows([header] + rows), '\n')
  }

  /** What follows the header line in a serialized table: a newline and the
      joined cells of each row, in order. */
  function RowLines(rows: seq<Row>): string
  {
    if rows == [] then "" else "\n" + Join(rows[0], ',') + RowLines(rows[1..])
  }

  /** A value the naive format can carry: it holds no comma and no newline. */
  predicate IsPlain(cell: string)
  {
    ',' !in cell && '\n' !in cell
  }

  predicate IsPlainRow(row: Row)
  {
    forall k :: 0 <= k < |row| ==> IsPlain(row[k])
  }

  // ---------------------------------------------------------------------
  // Blank cells and the row filter

  /** A row has content exactly when one of its cells is not blank. */
  lemma {:induction false} HasContentIffSomeCell(row: Row)
    ensures HasContent(row) <==> exists k :: 0 <= k < |row| && Trim(row[k]) != ""
  {
    if row != [] {
      HasContentIffSomeCell(row[1..]);
      if Trim(row[0]) == "" {
        forall k | 1 <= k < |row| ensures row[k] == row[1..][k - 1] { }
        if HasContent(row[1..]) {
          var k :| 0 <= k < |row[1..]| && Trim(row[1..][k]) != "";
          assert Trim(row[k + 1]) != "";
        }
      }
    }
  }

  /** A row has no content exactly when every cell is white space only; a
      row with content has at least one cell. */
  lemma NoContentIffAllSpace(row: Row)
    ensures !HasContent(row) <==> forall k :: 0 <= k < |row| ==> AllSpace(row[k])
    ensures HasContent(row) ==> |row| >= 1
  {
    HasContentIffSomeCell(row);
  }

  // ---------------------------------------------------------------------
  // Parsing

  /** Parsing never fails: even the empty text gives a header (one empty
      cell) and no rows. */
  lemma ParseEmpty()
    ensures Parse("") == Table([""], [])
  {
  }

  /** The header is the comma-split of the text before the first newline (the
      whole text when there is none); it is never filtered, even when blank. */
  lemma ParseHeader(text: string)
    ensures Parse(text).header == Split(text[..IndexOf(text, '\n')], ',')
    ensures |Parse(text).header| >= 1
  {
    SplitFirstPiece(text, '\n');
  }

  /** The data rows are the comma-split lines after the first one that have
      content, in their order in the text: each kept row is the split of the
      line at `KeptIndices` (shifted past the header line), and a line is kept
      exactly when some cell of it is not blank. */
  lemma ParseRows(text: string)
    ensures var lines := Split(text, '\n');
            var data := SplitLines(lines[1..]);
            Selects(data, HasContent, Parse(text).rows, KeptIndices(data, HasContent))
    ensures var lines := Split(text, '\n');
            var idx := KeptIndices(SplitLines(lines[1..]), HasContent);
            |idx| == |Parse(text).rows| &&
            forall k :: 0 <= k < |idx| ==> idx[k] + 1 < |lines| && Parse(text).rows[k] == Split(lines[idx[k] + 1], ',')
  {
    var lines := Split(text, '\n');
    var rows := SplitLines(lines);
    assert rows[1..] == SplitLines(lines[1..]);
    FilterSelects(rows[1..], HasContent);
  }

  /** The number of data rows is at most the number of newlines. */
  lemma ParseRowCount(text: string)
    ensures |Parse(text).rows| <= Count(text, '\n')
  {
    SplitCount(text, '\n');
    FilterSatisfies(SplitLines(Split(text, '\n'))[1..], HasContent);
  }

  /** A text without a newline is a header alone: there are no data rows. */
  lemma ParseSingleLine(text: string)
    requires '\n' !in text
    ensures Parse(text) == Table(Split(text, ','), [])
  {
    SplitWithoutSeparator(text, '\n');
    assert SplitLines([text])[1..] == [];
  }

  // ---------------------------------------------------------------------
  // Serializing

  /** The serialized text is the joined header followed, for each row in
      order, by a newline and the row's joined cells; with no rows it is the
      joined header alone. */
  lemma {:induction false} SerializeLayout(header: Row, rows: seq<Row>)
    ensures Serialize(header, rows) == Join(header, ',') + RowLines(rows)
    ensures rows == [] ==> Serialize(header, rows) == Join(header, ',')
    decreases |rows|
  {
    if rows != [] {
      var lines := JoinRows([header] + rows);
      assert lines[1..] == JoinRows(rows);
      SerializeLayout(rows[0], rows[1..]);
      assert [rows[0]] + rows[1..] == rows;
      assert Serialize(rows[0], rows[1..]) == Join(JoinRows(rows), '\n');
    }
  }

  lemma {:induction false} RowLinesConcat(a: seq<Row>, b: seq<Row>)
    ensures RowLines(a + b) == RowLines(a) + RowLines(b)
  {
    if a == [] {
      assert a + b == b;
    } else {
      assert (a + b)[0] == a[0];
      assert (a + b)[1..] == a[1..] + b;
      RowLinesConcat(a[1..], b);
    }
  }

  /** Adding a row at the end adds one line at the end of the text. */
  lemma SerializeAppend(header: Row, rows: seq<Row>, row: Row)
    ensures Serialize(header, rows + [row]) == Serialize(header, rows) + "\n" + Join(row, ',')
  {
    var h, last := Join(header, ','), "\n" + Join(row, ',');
    SerializeLayout(header, rows + [row]);
    SerializeLayout(header, rows);
    RowLinesConcat(rows, [row]);
    assert RowLines([row]) == last by {
      assert [row][1..] == [];
    }
    assert h + (RowLines(rows) + last) == (h + RowLines(rows)) + "\n" + Join(row, ',');
  }

  // ---------------------------------------------------------------------
  // Round trips

  /** Splitting every joined row gives the rows back, when every row has a
      cell and no cell holds a comma. */
  lemma SplitLinesJoinRows(rows: seq<Row>)
    requires forall k :: 0 <= k < |rows| ==> |rows[k]| >= 1
    requires forall k, j :: 0 <= k < |rows| && 0 <= j < |rows[k]| ==> ',' !in rows[k][j]
    ensures SplitLines(JoinRows(rows)) == rows
  {
    forall k | 0 <= k < |rows|
      ensures Split(Join(rows[k], ','), ',') == rows[k]
    {
      SplitJoin(rows[k], ',');
    }
  }

  /** Loading a downloaded table gives it back, when the header has a cell,
      every row has a non-blank cell, and no value holds a comma or a
      newline. */
  lemma ParseSerialize(header: Row, rows: seq<Row>)
    requires |header| >= 1 && IsPlainRow(header)
    requires forall k :: 0 <= k < |rows| ==> IsPlainRow(rows[k]) && HasContent(rows[k])
    ensures Parse(Serialize(header, rows)) == Table(header, rows)
  {
    var all := [header] + rows;
    var lines := JoinRows(all);
    forall k | 0 <= k < |all|
      ensures '\n' !in lines[k] && Split(lines[k], ',') == all[k]
    {
      JoinAvoids(all[k], ',', '\n');
      SplitJoin(all[k], ',');
    }
    SplitJoin(lines, '\n');
    assert SplitLines(Split(Serialize(header, rows), '\n')) == all;
    assert all[1..] == rows;
    FilterAll(rows, HasContent);
  }

  /** Downloading a loaded file gives back its text, when no line after the
      first is blank. */
  lemma SerializeParse(text: string)
    requires forall j :: 1 <= j < |Split(text, '\n')| ==> HasContent(Split(Split(text, '\n')[j], ','))
    ensures Serialize(Parse(text).header, Parse(text).rows) == text
  {
    var lines := Split(text, '\n');
    var rows := SplitLines(lines);
    FilterAll(rows[1..], HasContent);
    assert [rows[0]] + rows[1..] == rows;
    forall k | 0 <= k < |lines|
      ensures JoinRows(rows)[k] == lines[k]
    {
      JoinSplit(lines[k], ',');
    }
    assert JoinRows(rows) == lines;
    JoinSplit(text, '\n');
  }

  // ---------------------------------------------------------------------
  // Examples

  /** Both an empty line and a line of spaces are dropped; a trailing newline
      gives one more empty, dropped, line. */
  lemma ParseDropsBlankLines()
    ensures Parse("a,b\n,\n1,2\n   ,\n") == Table(["a", "b"], [["1", "2"]])
  {
    var cells: seq<Row> := [["a", "b"], ["", ""], ["1", "2"], ["   ", ""], [""]];
    ExampleLines();
    ExampleCells(cells);
    ExampleKept(cells[1..]);
  }

  lemma ExampleLines()
    ensures Split("a,b\n,\n1,2\n   ,\n", '\n') == ["a,b", ",", "1,2", "   ,", ""]
  {
    var lines := ["a,b", ",", "1,2", "   ,", ""];
    ExampleJoin(lines);
    SplitJoin(lines, '\n');
  }

  lemma ExampleJoin(lines: seq<string>)
    requires lines == ["a,b", ",", "1,2", "   ,", ""]
    ensures Join(lines, '\n') == "a,b\n,\n1,2\n   ,\n"
  {
    assert Join(lines[4..], '\n') == "";
    assert Join(lines[3..], '\n') == "   ,\n";
    assert Join(lines[2..], '\n') == "1,2\n   ,\n";
    assert Join(lines[1..], '\n') == ",\n1,2\n   ,\n";
  }

  lemma ExampleCells(cells: seq<Row>)
    requires cells == [["a", "b"], ["", ""], ["1", "2"], ["   ", ""], [""]]
    ensures SplitLines(["a,b", ",", "1,2", "   ,", ""]) == cells
  {
    assert Join(["a", "b"], ',') == "a,b";
    assert Join(["", ""], ',') == ",";
    assert Join(["1", "2"], ',') == "1,2";
    assert Join(["   ", ""], ',') == "   ,";
    assert Join([""], ',') == "";
    assert JoinRows(cells) == ["a,b", ",", "1,2", "   ,", ""];
    SplitLinesJoinRows(cells);
  }

  lemma ExampleKept(rows: seq<Row>)
    requires rows == [["", ""], ["1", "2"], ["   ", ""], [""]]
    ensures Filter(rows, HasContent) == [["1", "2"]]
  {
    ExampleContent();
    KeepSecondOfFour(rows[0], rows[1], rows[2], rows[3], HasContent);
  }

  lemma ExampleContent()
    ensures !HasContent(["", ""]) && !HasContent([""]) && !HasContent(["   ", ""])
    ensures HasContent(["1", "2"])
  {
    assert !HasContent(["   ", ""]) by {
      assert AllSpace("   ");
    }
    assert HasContent(["1", "2"]) by {
      assert !IsSpace("1"[0]);
    }
  }

  lemma KeepSecondOfFour<T>(a: T, b: T, c: T, d: T, p: T -> bool)
    requires !p(a) && p(b) && !p(c) && !p(d)
    ensures Filter([a, b, c, d], p) == [b]
  {
    assert [a, b, c, d] == [a] + ([b] + ([c] + [d]));
    FilterConcat([a], [b] + ([c] + [d]), p);
    FilterConcat([b], [c] + [d], p);
    FilterConcat([c], [d], p);
    FilterSingle(a, p);
    FilterSingle(b, p);
    FilterSingle(c, p);
    FilterSingle(d, p);
  }

  lemma SerializeExample()
    ensures Serialize(["name", "age"], [["Al", "30"], ["Bo", "25"]]) == "name,age\nAl,30\nBo,25"
  {
    var header, rows := ["name", "age"], [["Al", "30"], ["Bo", "25"]];
    SerializeLayout(header, rows);
    ExampleRowLines(rows);
    assert Join(header, ',') == "name,age";
  }

  lemma ExampleRowLines(rows: seq<Row>)
    requires rows == [["Al", "30"], ["Bo", "25"]]
    ensures RowLines(rows) == "\nAl,30\nBo,25"
  {
    assert Join(rows[0], ',') == "Al,30";
    assert Join(rows[1], ',') == "Bo,25";
    assert rows[1..][1..] == [];
    assert RowLines(rows[1..]) == "\nBo,25";
  }

  /** A comma inside a value is read back as a cell separator. */
  lemma EmbeddedCommaSplitsCell()
    ensures Parse(Serialize(["h"], [["x,y"]])) == Table(["h"], [["x", "y"]])
  {
    EmbeddedText();
    var lines := ["h", "x,y"];
    EmbeddedLines(lines);
    EmbeddedCells(lines);
    assert HasContent(["x", "y"]) by {
      assert !AllSpace("x");
    }
    assert SplitLines(lines)[1..] == [["x", "y"]];
    FilterSingle(["x", "y"], HasContent);
  }

  lemma EmbeddedText()
    ensures Serialize(["h"], [["x,y"]]) == "h\nx,y"
  {
    SerializeLayout(["h"], [["x,y"]]);
    assert [["x,y"]][1..] == [];
  }

  lemma EmbeddedLines(lines: seq<string>)
    requires lines == ["h", "x,y"]
    ensures Split("h\nx,y", '\n') == lines
  {
    assert "h\nx,y" == "h" + ['\n'] + "x,y";
    SplitTwo("h", "x,y", '\n');
  }

  lemma EmbeddedCells(lines: seq<string>)
    requires lines == ["h", "x,y"]
    ensures SplitLines(lines) == [["h"], ["x", "y"]]
  {
    assert "x,y" == "x" + [','] + "y";
    SplitTwo("x", "y", ',');
    SplitWithoutSeparator("h", ',');
  }
}
