/**
  Reading back what the modal writes. The reader has no quote handling, so
  the round trip holds for "clean" tables: column names and cells that are
  already trimmed and hold no comma, double quote or line feed, no column
  named `id`, some non-empty column name and some non-empty cell per row.
  Then the text `convertTableDataToCsv` writes parses to the same columns and
  the same rows in the same order; only the row identifiers are new stamps.
*/
module CsvRoundTrip {
  import opened Wrappers
  import opened Text
  import opened Rows
  import opened Csv

  /** A value the reader gives back unchanged and the writer writes bare:
      no whitespace at either end (so trimming keeps it), and no comma,
      double quote or line feed. */
  predicate Clean(v: string) {
    && (|v| == 0 || (!IsWhitespace(v[0]) && !IsWhitespace(v[|v| - 1])))
    && ',' !in v && '"' !in v && '\n' !in v
  }

  /** A row with exactly the table's columns, clean cells and some non-empty cell. */
  predicate CleanRow(headers: seq<string>, row: Row) {
    && row.fields.Keys == FieldKeys(headers)
    && (forall h :: h in row.fields ==> Clean(row.fields[h]))
    && HasData(row)
  }

  /** A table whose written text reads back as the table. */
  predicate RoundTrippable(t: Table) {
    && (forall k :: 0 <= k < |t.headers| ==> Clean(t.headers[k]) && t.headers[k] != "id")
    && !AllEmpty(t.headers)
    && (forall k :: 0 <= k < |t.rows| ==> CleanRow(t.headers, t.rows[k]))
  }

  /** The rows with their identifiers replaced by the stamps a parse gives
      them, `stamp + index` onwards. */
  function Restamped(rows: seq<Row>, stamp: nat, index: nat): (r: seq<Row>)
    ensures |r| == |rows|
    ensures forall k :: 0 <= k < |rows| ==> r[k] == Row(Stamp(stamp + index + k), rows[k].fields)
  {
    if |rows| == 0 then []
    else [Row(Stamp(stamp + index), rows[0].fields)] + Restamped(rows[1..], stamp, index + 1)
  }

  // ------------------------------------------------------------------
  // one value, one line

  lemma {:induction false} CleanTokenKeeps(v: string)
    requires Clean(v)
    ensures CleanToken(v) == v
  {
    WithoutRemoves(v, '"');
  }

  lemma {:induction false} CleanNonEmptyNotBlank(v: string)
    requires Clean(v) && v != ""
    ensures !IsBlank(v)
  {
  }

  lemma {:induction false} BlankConcat(a: string, b: string)
    requires IsBlank(a + b)
    ensures IsBlank(a) && IsBlank(b)
  {
    assert forall i :: 0 <= i < |a| ==> (a + b)[i] == a[i];
    assert forall i :: 0 <= i < |b| ==> (a + b)[|a| + i] == b[i];
  }

  /** A joined line is blank only if every piece is blank. */
  lemma {:induction false} JoinNotBlank(parts: seq<string>, sep: char, k: nat)
    requires k < |parts| && !IsBlank(parts[k])
    ensures !IsBlank(Join(parts, sep))
  {
    if |parts| > 1 {
      var rest := Join(parts[1..], sep);
      if IsBlank(Join(parts, sep)) {
        BlankConcat(parts[0] + [sep], rest);
        BlankConcat(parts[0], [sep]);
        if k > 0 {
          JoinNotBlank(parts[1..], sep, k - 1);
        }
        assert false;
      }
    }
  }

  /** Clean values joined by commas read back as those values. */
  lemma {:induction false} CellsOfJoin(values: seq<string>)
    requires |values| > 0
    requires forall k :: 0 <= k < |values| ==> Clean(values[k])
    ensures Cells(Join(values, ',')) == values
  {
    SplitJoin(values, ',');
    forall k | 0 <= k < |values|
      ensures CleanToken(values[k]) == values[k]
    {
      CleanTokenKeeps(values[k]);
    }
    CleanAllKeeps(values);
  }

  /** Building a row from its own cells gives back its cells. */
  lemma {:induction false} BuildFieldsOfValues(headers: seq<string>, row: Row)
    requires row.fields.Keys == FieldKeys(headers)
    ensures BuildFields(headers, Values(headers, row)) == row.fields
  {
    var m := BuildFields(headers, Values(headers, row));
    forall h | h in m
      ensures m[h] == row.fields[h]
    {
      var i := LastOccurrenceExists(headers, h);
      BuildFieldsLast(headers, Values(headers, row), i);
    }
  }

  /** The cells of a clean row are clean. */
  lemma {:induction false} ValuesClean(headers: seq<string>, row: Row)
    requires forall k :: 0 <= k < |headers| ==> headers[k] != "id"
    requires CleanRow(headers, row)
    ensures forall i :: 0 <= i < |headers| ==> Clean(Values(headers, row)[i])
  {
    forall i | 0 <= i < |headers|
      ensures Clean(Values(headers, row)[i])
    {
      assert headers[i] in FieldKeys(headers);
    }
  }

  /** The written line of a clean row is its cells joined by commas. */
  lemma {:induction false} RecordLineOfCleanRow(headers: seq<string>, row: Row)
    requires forall k :: 0 <= k < |headers| ==> headers[k] != "id"
    requires CleanRow(headers, row)
    ensures forall i :: 0 <= i < |headers| ==> Clean(Values(headers, row)[i])
    ensures RecordLine(headers, row) == Join(Values(headers, row), ',')
  {
    ValuesClean(headers, row);
    var vs := Values(headers, row);
    forall i | 0 <= i < |vs|
      ensures !NeedsQuoting(vs[i])
    {
      assert Clean(vs[i]);
    }
    QuoteAllBare(vs);
  }

  /** The written line of a clean row has no line feed and is not blank. */
  lemma {:induction false} RecordLineIsLine(headers: seq<string>, row: Row)
    requires forall k :: 0 <= k < |headers| ==> headers[k] != "id"
    requires CleanRow(headers, row)
    ensures '\n' !in RecordLine(headers, row)
    ensures !IsBlank(RecordLine(headers, row))
  {
    RecordLineOfCleanRow(headers, row);
    JoinChars(Values(headers, row), ',', '\n');
    RecordLineNotBlank(headers, row);
  }

  lemma {:induction false} RecordLineNotBlank(headers: seq<string>, row: Row)
    requires forall k :: 0 <= k < |headers| ==> headers[k] != "id"
    requires CleanRow(headers, row)
    requires forall i :: 0 <= i < |headers| ==> Clean(Values(headers, row)[i])
    ensures !IsBlank(Join(Values(headers, row), ','))
  {
    var vs := Values(headers, row);
    var h :| h in row.fields && h != "id" && row.fields[h] != "";
    assert h in FieldKeys(headers);
    var i :| 0 <= i < |headers| && headers[i] == h;
    assert vs[i] == row.fields[h];
    CleanNonEmptyNotBlank(vs[i]);
    JoinNotBlank(vs, ',', i);
  }

  /** The line of a clean row parses back to that row under a fresh stamp. */
  lemma {:induction false} ParseRecordLine(headers: seq<string>, row: Row, stamp: nat)
    requires |headers| > 0
    requires forall k :: 0 <= k < |headers| ==> headers[k] != "id"
    requires CleanRow(headers, row)
    ensures MakeRow(headers, Cells(RecordLine(headers, row)), stamp) == Row(Stamp(stamp), row.fields)
  {
    RecordLineOfCleanRow(headers, row);
    CellsOfJoin(Values(headers, row));
    BuildFieldsOfValues(headers, row);
  }

  /** A first line that reads as a row with data gives the first parsed row. */
  lemma {:induction false} ParseRowsCons(headers: seq<string>, line: string, rest: seq<string>, stamp: nat, index: nat)
    requires HasData(MakeRow(headers, Cells(line), stamp + index))
    ensures ParseRows(headers, [line] + rest, stamp, index)
            == [MakeRow(headers, Cells(line), stamp + index)] + ParseRows(headers, rest, stamp, index + 1)
  {
    assert ([line] + rest)[0] == line && ([line] + rest)[1..] == rest;
  }

  /** The lines of clean rows parse back to those rows, restamped. */
  lemma {:induction false} ParseRecordLines(headers: seq<string>, rows: seq<Row>, stamp: nat, index: nat)
    requires |headers| > 0
    requires forall k :: 0 <= k < |headers| ==> headers[k] != "id"
    requires forall k :: 0 <= k < |rows| ==> CleanRow(headers, rows[k])
    ensures ParseRows(headers, RecordLines(headers, rows), stamp, index) == Restamped(rows, stamp, index)
  {
    if |rows| > 0 {
      ParseRecordLines(headers, rows[1..], stamp, index + 1);
      ParseRecordLinesStep(headers, rows, stamp, index);
    }
  }

  /** The inductive step: the first line gives the first row back. */
  lemma {:induction false} ParseRecordLinesStep(headers: seq<string>, rows: seq<Row>, stamp: nat, index: nat)
    requires |headers| > 0 && |rows| > 0
    requires forall k :: 0 <= k < |headers| ==> headers[k] != "id"
    requires CleanRow(headers, rows[0])
    requires ParseRows(headers, RecordLines(headers, rows[1..]), stamp, index + 1) == Restamped(rows[1..], stamp, index + 1)
    ensures ParseRows(headers, RecordLines(headers, rows), stamp, index) == Restamped(rows, stamp, index)
  {
    ParseRecordLine(headers, rows[0], stamp + index);
    ParseRowsCons(headers, RecordLine(headers, rows[0]), RecordLines(headers, rows[1..]), stamp, index);
  }

  // ------------------------------------------------------------------
  // the whole text

  /** The header line of a round-trippable table reads back as its headers. */
  lemma {:induction false} HeaderLine(t: Table)
    requires RoundTrippable(t)
    ensures '\n' !in Join(t.headers, ',')
    ensures !IsBlank(Join(t.headers, ','))
    ensures Cells(Join(t.headers, ',')) == t.headers
  {
    JoinChars(t.headers, ',', '\n');
    var k :| 0 <= k < |t.headers| && t.headers[k] != "";
    CleanNonEmptyNotBlank(t.headers[k]);
    JoinNotBlank(t.headers, ',', k);
    CellsOfJoin(t.headers);
  }

  /** Parsing text whose non-blank lines are a header line and some data
      lines is parsing those data lines under that line's cells. */
  lemma {:induction false} ParseOfLines(content: string, stamp: nat, header: string, records: seq<string>)
    requires Lines(content) == [header] + records
    requires !AllEmpty(Cells(header))
    ensures Parse(content, stamp) == Success(Table(Cells(header), ParseRows(Cells(header), records, stamp, 0)))
  {
    assert Lines(content)[1..] == records;
  }

  /** A round-trippable table without rows is written as its header line alone. */
  lemma {:induction false} RoundTripEmpty(t: Table, stamp: nat)
    requires RoundTrippable(t)
    requires |t.rows| == 0
    ensures Parse(Serialize(t.headers, t.rows), stamp) == Success(Table(t.headers, []))
  {
    var header := Join(t.headers, ',');
    HeaderLine(t);
    LinesOfHeaderOnly(header);
    ParseOfLines(header + "\n", stamp, header, []);
  }

  /** A non-blank line followed by a line feed has that line as its only line. */
  lemma {:induction false} LinesOfHeaderOnly(header: string)
    requires '\n' !in header && !IsBlank(header)
    ensures Lines(header + "\n") == [header] + []
  {
    var text := header + "\n";
    assert text == header + ['\n'] + "";
    SplitAfterPiece(header, "", '\n');
    var pieces := Split(text, '\n');
    assert pieces == [header, ""];
    NonBlankLinesHead(pieces);
    assert pieces[1..] == [""];
    assert NonBlankLines([""]) == [] by {
      assert IsBlank("");
    }
  }

  /** No written line of clean rows holds a line feed or is blank. */
  lemma {:induction false} RecordLinesAreLines(headers: seq<string>, rows: seq<Row>)
    requires forall k :: 0 <= k < |headers| ==> headers[k] != "id"
    requires forall k :: 0 <= k < |rows| ==> CleanRow(headers, rows[k])
    ensures forall k :: 0 <= k < |rows| ==>
              '\n' !in RecordLines(headers, rows)[k] && !IsBlank(RecordLines(headers, rows)[k])
  {
    forall k | 0 <= k < |rows|
      ensures '\n' !in RecordLines(headers, rows)[k] && !IsBlank(RecordLines(headers, rows)[k])
    {
      RecordLineIsLine(headers, rows[k]);
    }
  }

  /** Putting one more line in front keeps every line free of line feeds and
      non-blank. */
  lemma {:induction false} PrependLine(line: string, lines: seq<string>)
    requires '\n' !in line && !IsBlank(line)
    requires forall k :: 0 <= k < |lines| ==> '\n' !in lines[k] && !IsBlank(lines[k])
    ensures forall k :: 0 <= k < |[line] + lines| ==> '\n' !in ([line] + lines)[k] && !IsBlank(([line] + lines)[k])
  {
    forall k | 0 <= k < |[line] + lines|
      ensures '\n' !in ([line] + lines)[k] && !IsBlank(([line] + lines)[k])
    {
      if k > 0 {
        assert ([line] + lines)[k] == lines[k - 1];
      }
    }
  }

  /** The lines of a round-trippable table with rows. */
  lemma {:induction false} RoundTripLines(t: Table)
    requires RoundTrippable(t)
    requires |t.rows| > 0
    ensures Lines(Serialize(t.headers, t.rows)) == [Join(t.headers, ',')] + RecordLines(t.headers, t.rows)
  {
    var header := Join(t.headers, ',');
    var records := RecordLines(t.headers, t.rows);
    var pieces := [header] + records;
    HeaderLine(t);
    assert WithoutId(t.headers) == t.headers;
    assert Serialize(t.headers, t.rows) == Join(pieces, '\n');
    RecordLinesAreLines(t.headers, t.rows);
    PrependLine(header, records);
    SplitJoin(pieces, '\n');
    NonBlankLinesKeepsAll(pieces);
  }

  /** Parsing the written text of a round-trippable table gives back its
      headers and its rows in order, each under the stamp `stamp + k` of its
      position `k`. */
  lemma {:induction false} RoundTrip(t: Table, stamp: nat)
    requires RoundTrippable(t)
    ensures Parse(Serialize(t.headers, t.rows), stamp) == Success(Table(t.headers, Restamped(t.rows, stamp, 0)))
  {
    if |t.rows| == 0 {
      RoundTripEmpty(t, stamp);
    } else {
      var text := Serialize(t.headers, t.rows);
      var header := Join(t.headers, ',');
      HeaderLine(t);
      RoundTripLines(t);
      ParseOfLines(text, stamp, header, RecordLines(t.headers, t.rows));
      ParseRecordLines(t.headers, t.rows, stamp, 0);
    }
  }
}
