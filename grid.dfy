/** The editor's table state: the header row and the data rows that a file
    load fills in, that the cell inputs and the row buttons change, and that
    the download button writes out. */
module Editor {
  import opened Text
  import opened Csv
  import opened Filtering

  /** `new Array(width).fill('')`: the row the "Add New Row" button appends. */
  function BlankRow(width: nat): Row
  {
    seq(width, _ => "")
  }

  /** `rows.filter((_, i) => i !== index)`: every element except the one at
      position `index`. The index comes from the view but is not checked, so
      any integer is accepted. */
  function DropIndex<T>(xs: seq<T>, index: int): (r: seq<T>)
    ensures |r| == if 0 <= index < |xs| then |xs| - 1 else |xs|
  {
    if xs == [] then []
    else (if index == 0 then [] else [xs[0]]) + DropIndex(xs[1..], index - 1)
  }

  /** Every row of the body has as many cells as the header. The editor does
      not enforce this; a file load need not establish it. */
  predicate Rectangular(header: Row, rows: seq<Row>)
  {
    forall k :: 0 <= k < |rows| ==> |rows[k]| == |header|
  }

  /** A blank row has as many cells as asked for, all of them empty, so it has
      no content. */
  lemma BlankRowIsBlank(width: nat)
    ensures |BlankRow(width)| == width
    ensures forall k :: 0 <= k < width ==> BlankRow(width)[k] == ""
    ensures !HasContent(BlankRow(width))
  {
    NoContentIffAllSpace(BlankRow(width));
  }

  /** Deleting an existing position removes exactly that element and moves the
      later ones up by one; any other index leaves the sequence as it was. */
  lemma {:induction false} DropIndexShifts<T>(xs: seq<T>, index: int)
    ensures 0 <= index < |xs| ==> DropIndex(xs, index) == xs[..index] + xs[index + 1..]
    ensures !(0 <= index < |xs|) ==> DropIndex(xs, index) == xs
  {
    if xs != [] {
      DropIndexShifts(xs[1..], index - 1);
      if index == 0 {
        assert xs[1..] == xs[..0] + xs[1..];
      } else if 0 < index < |xs| {
        assert xs[..index] == [xs[0]] + xs[1..][..index - 1];
        assert xs[index + 1..] == xs[1..][index..];
      } else {
        assert xs == [xs[0]] + xs[1..];
      }
    }
  }

  /** Deleting an existing row leaves one row fewer; the rows before it keep
      their positions and the rows after it move up by one. */
  lemma DropIndexPositions<T>(xs: seq<T>, index: int)
    requires 0 <= index < |xs|
    ensures |DropIndex(xs, index)| == |xs| - 1
    ensures forall k :: 0 <= k < index ==> DropIndex(xs, index)[k] == xs[k]
    ensures forall k :: index <= k < |xs| - 1 ==> DropIndex(xs, index)[k] == xs[k + 1]
  {
    DropIndexShifts(xs, index);
  }

  /** A row added with "Add New Row" and not edited does not survive a
      download followed by a load of the downloaded file. */
  lemma {:induction false} AddedRowDroppedOnReload(header: Row, rows: seq<Row>, width: nat)
    ensures Parse(Serialize(header, rows + [BlankRow(width)])) == Parse(Serialize(header, rows))
  {
    var blank := BlankRow(width);
    var text := Serialize(header, rows);
    var last := Join(blank, ',');
    SerializeAppend(header, rows, blank);
    assert text + "\n" + last == text + ['\n'] + last;
    SplitConcat(text, last, '\n');
    BlankRowIsBlank(width);
    JoinAvoids(blank, ',', '\n');
    SplitWithoutSeparator(last, '\n');
    var before := Split(text, '\n');
    var lines := before + [last];
    assert Split(text + "\n" + last, '\n') == lines;
    assert SplitLines(lines) == SplitLines(before) + [Split(last, ',')];
    assert SplitLines(lines)[0] == SplitLines(before)[0];
    assert SplitLines(lines)[1..] == SplitLines(before)[1..] + [Split(last, ',')];
    assert !HasContent(Split(last, ',')) by {
      if width == 0 {
        assert Split(last, ',') == [""];
      } else {
        SplitJoin(blank, ',');
      }
    }
    FilterConcat(SplitLines(before)[1..], [Split(last, ',')], HasContent);
    FilterSingle(Split(last, ','), HasContent);
  }

  /** The table state behind the view. */
  class Grid {
    var headers: Row
    var csvData: seq<Row>

    /** Both pieces of state start out empty, before any file is loaded. */
    constructor ()
      ensures headers == [] && csvData == []
    {
      headers := [];
      csvData := [];
    }

    /** A file's text arrives: both pieces of state are replaced by the parse
        of the text, whatever they held before. */
    method Load(text: string)
      modifies this
      ensures headers == Parse(text).header
      ensures csvData == Parse(text).rows
      ensures |headers| >= 1
      ensures forall k :: 0 <= k < |csvData| ==> HasContent(csvData[k])
    {
      ParseHeader(text);
      FilterSatisfies(SplitLines(Split(text, '\n'))[1..], HasContent);
      var table := Parse(text);
      headers := table.header;
      csvData := table.rows;
    }

    /** A cell input changes: exactly that cell takes the new value, and the
        header, the number of rows and every row's length stay as they were. */
    method EditCell(rowIndex: nat, colIndex: nat, value: string)
      requires rowIndex < |csvData| && colIndex < |csvData[rowIndex]|
      modifies this
      ensures headers == old(headers)
      ensures |csvData| == |old(csvData)|
      ensures forall i :: 0 <= i < |csvData| ==> |csvData[i]| == |old(csvData)[i]|
      ensures csvData[rowIndex][colIndex] == value
      ensures forall i, j :: 0 <= i < |csvData| && 0 <= j < |csvData[i]| && (i, j) != (rowIndex, colIndex) ==>
                csvData[i][j] == old(csvData)[i][j]
      ensures Rectangular(old(headers), old(csvData)) ==> Rectangular(headers, csvData)
    {
      var newData := csvData;
      newData := newData[rowIndex := newData[rowIndex][colIndex := value]];
      csvData := newData;
    }

    /** "Add New Row": one row of empty cells, as many as the header has, is
        appended; the earlier rows and the header are unchanged. */
    method AddRow()
      modifies this
      ensures headers == old(headers)
      ensures csvData == old(csvData) + [BlankRow(|headers|)]
      ensures |csvData| == |old(csvData)| + 1
      ensures |csvData[|csvData| - 1]| == |headers| && !HasContent(csvData[|csvData| - 1])
      ensures Rectangular(old(headers), old(csvData)) ==> Rectangular(headers, csvData)
    {
      BlankRowIsBlank(|headers|);
      csvData := csvData + [BlankRow(|headers|)];
    }

    /** A row's delete button: the row at `index` goes and the later rows move
        up one place; an index that names no row changes nothing. */
    method DeleteRow(index: int)
      modifies this
      ensures headers == old(headers)
      ensures csvData == DropIndex(old(csvData), index)
      ensures 0 <= index < |old(csvData)| ==> csvData == old(csvData)[..index] + old(csvData)[index + 1..]
      ensures !(0 <= index < |old(csvData)|) ==> csvData == old(csvData)
      ensures Rectangular(old(headers), old(csvData)) ==> Rectangular(headers, csvData)
    {
      DropIndexShifts(csvData, index);
      csvData := DropIndex(csvData, index);
    }

    /** "Download CSV": the text of the file that is offered for download. */
    method Export() returns (content: string)
      ensures content == Serialize(headers, csvData)
      ensures content == Join(headers, ',') + RowLines(csvData)
    {
      SerializeLayout(headers, csvData);
      content := Join(JoinRows([headers] + csvData), '\n');
    }
  }
}
