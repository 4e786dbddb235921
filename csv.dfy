/**
  The CSV reading the modal's file loader performs and the CSV writing its
  `convertTableDataToCsv` performs.

  Reading splits the text on every `\n` and every `,`, with no quote
  handling; each token is trimmed and then loses every `"` character
  (trimming first, so quotes around blanks leave blanks behind). Writing
  quotes a value holding `,`, `"` or `\n` as section 2, rules 6 and 7, of
  RFC 4180 describe, with `\n` between records.
*/
module Csv {
  import opened Wrappers
  import opened Text
  import opened Rows

  /** Why a text yields no table: empty content, no non-blank line, or a
      first line whose tokens are all empty. */
  datatype ParseError = EmptyContent | NoDataLines | InvalidHeaders

  // ------------------------------------------------------------------
  // reading

  /** `t.trim().replace(/"/g, '')`. */
  function CleanToken(t: string): (r: string)
    ensures '"' !in r
    ensures '"' !in t && (|t| == 0 || (!IsWhitespace(t[0]) && !IsWhitespace(t[|t| - 1]))) ==> r == t
  {
    WithoutRemoves(Trim(t), '"');
    Without(Trim(t), '"')
  }

  /** The cleaned tokens of a list of raw tokens. */
  function CleanAll(tokens: seq<string>): seq<string> {
    seq(|tokens|, i requires 0 <= i < |tokens| => CleanToken(tokens[i]))
  }

  /** Tokens that cleaning leaves alone are kept as they are. */
  lemma {:induction false} CleanAllKeeps(tokens: seq<string>)
    requires forall i :: 0 <= i < |tokens| ==> CleanToken(tokens[i]) == tokens[i]
    ensures CleanAll(tokens) == tokens
  {
  }

  /** `line.split(',').map(v => v.trim().replace(/"/g, ''))`. */
  function Cells(line: string): (r: seq<string>)
    ensures |r| == |Split(line, ',')|
  {
    CleanAll(Split(line, ','))
  }

  /** No cell keeps a double quote. */
  lemma {:induction false} CellsUnquoted(line: string)
    ensures forall k :: 0 <= k < |Cells(line)| ==> '"' !in Cells(line)[k]
  {
    var tokens := Split(line, ',');
    forall k | 0 <= k < |tokens|
      ensures '"' !in Cells(line)[k]
    {
      WithoutRemoves(Trim(tokens[k]), '"');
    }
  }

  /** `lines.filter(line => line.trim() !== '')`: the non-blank lines, in order. */
  function NonBlankLines(lines: seq<string>): (r: seq<string>)
    ensures |r| <= |lines|
  {
    if |lines| == 0 then []
    else
      var rest := NonBlankLines(lines[1..]);
      if Trim(lines[0]) == "" then rest else [lines[0]] + rest
  }

  /** No kept line is blank. */
  lemma {:induction false} NonBlankLinesNonBlank(lines: seq<string>)
    ensures forall line :: line in NonBlankLines(lines) ==> !IsBlank(line)
  {
    if |lines| > 0 {
      NonBlankLinesNonBlank(lines[1..]);
      var rest := NonBlankLines(lines[1..]);
      if IsBlank(lines[0]) {
        assert NonBlankLines(lines) == rest;
      } else {
        assert NonBlankLines(lines) == [lines[0]] + rest;
      }
    }
  }

  /** Nothing is kept exactly when every line is blank. */
  lemma {:induction false} NonBlankLinesEmpty(lines: seq<string>)
    ensures NonBlankLines(lines) == [] <==> forall line :: line in lines ==> IsBlank(line)
  {
    if |lines| > 0 {
      NonBlankLinesEmpty(lines[1..]);
      assert forall line :: line in lines <==> line == lines[0] || line in lines[1..];
      if !IsBlank(lines[0]) {
        assert NonBlankLines(lines) == [lines[0]] + NonBlankLines(lines[1..]);
      }
    }
  }

  /** Lines that are all non-blank are all kept. */
  lemma {:induction false} NonBlankLinesKeepsAll(lines: seq<string>)
    requires forall line :: line in lines ==> !IsBlank(line)
    ensures NonBlankLines(lines) == lines
  {
    if |lines| > 0 {
      NonBlankLinesHead(lines);
      NonBlankLinesKeepsAll(lines[1..]);
      assert [lines[0]] + lines[1..] == lines;
    }
  }

  lemma NonBlankLinesHead(lines: seq<string>)
    requires |lines| > 0 && !IsBlank(lines[0])
    ensures NonBlankLines(lines) == [lines[0]] + NonBlankLines(lines[1..])
  {
  }

  /** The filter works line by line: filtering two runs of lines one after
      the other is filtering each run. */
  lemma {:induction false} NonBlankLinesConcat(a: seq<string>, b: seq<string>)
    ensures NonBlankLines(a + b) == NonBlankLines(a) + NonBlankLines(b)
  {
    if |a| > 0 {
      var ab := a + b;
      assert ab[0] == a[0];
      assert ab[1..] == a[1..] + b;
      NonBlankLinesConcat(a[1..], b);
      var later, rest := NonBlankLines(a[1..]), NonBlankLines(b);
      if Trim(a[0]) == "" {
        assert NonBlankLines(ab) == NonBlankLines(ab[1..]);
        assert NonBlankLines(a) == later;
      } else {
        assert NonBlankLines(ab) == [a[0]] + NonBlankLines(ab[1..]);
        assert NonBlankLines(a) == [a[0]] + later;
        assert [a[0]] + (later + rest) == ([a[0]] + later) + rest;
      }
    } else {
      assert a + b == b;
    }
  }

  /** A single line is kept exactly when it is not blank. */
  lemma NonBlankLinesOne(line: string)
    ensures NonBlankLines([line]) == if IsBlank(line) then [] else [line]
  {
    assert [line][1..] == [];
  }

  /** The first kept line is the first non-blank line. */
  lemma {:induction false} NonBlankLinesFirst(lines: seq<string>) returns (i: nat)
    requires NonBlankLines(lines) != []
    ensures i < |lines| && !IsBlank(lines[i])
    ensures forall j :: 0 <= j < i ==> IsBlank(lines[j])
    ensures NonBlankLines(lines)[0] == lines[i]
  {
    if IsBlank(lines[0]) {
      assert NonBlankLines(lines) == NonBlankLines(lines[1..]);
      var i' := NonBlankLinesFirst(lines[1..]);
      i := i' + 1;
      forall j | 0 <= j < i
        ensures IsBlank(lines[j])
      {
        if j > 0 {
          assert lines[j] == lines[1..][j - 1];
        }
      }
    } else {
      i := 0;
      NonBlankLinesHead(lines);
    }
  }

  /** `content.split('\n').filter(line => line.trim() !== '')`. */
  function Lines(content: string): seq<string> {
    NonBlankLines(Split(content, '\n'))
  }

  /** `parsedHeaders.every(h => h === '')`. */
  predicate AllEmpty(tokens: seq<string>) {
    forall k :: 0 <= k < |tokens| ==> tokens[k] == ""
  }

  /** The data lines mapped to rows (the row built from the line at position
      `index` among the data lines is stamped `stamp + index`), keeping only
      rows with some non-empty cell. */
  function ParseRows(headers: seq<string>, lines: seq<string>, stamp: nat, index: nat): (rows: seq<Row>)
    ensures |rows| <= |lines|
  {
    if |lines| == 0 then []
    else
      var row := MakeRow(headers, Cells(lines[0]), stamp + index);
      var rest := ParseRows(headers, lines[1..], stamp, index + 1);
      if HasData(row) then [row] + rest else rest
  }

  /** Every parsed row carries every column and some non-empty cell. */
  lemma {:induction false} ParseRowsShape(headers: seq<string>, lines: seq<string>, stamp: nat, index: nat)
    ensures forall k :: 0 <= k < |ParseRows(headers, lines, stamp, index)| ==>
              ParseRows(headers, lines, stamp, index)[k].fields.Keys == FieldKeys(headers)
              && HasData(ParseRows(headers, lines, stamp, index)[k])
  {
    if |lines| > 0 {
      ParseRowsShape(headers, lines[1..], stamp, index + 1);
    }
  }

  /** Without an `id` column every row keeps its stamp, at least `stamp + index`. */
  lemma {:induction false} ParseRowsStamped(headers: seq<string>, lines: seq<string>, stamp: nat, index: nat)
    requires "id" !in headers
    ensures forall k :: 0 <= k < |ParseRows(headers, lines, stamp, index)| ==>
              ParseRows(headers, lines, stamp, index)[k].id.Stamp?
              && ParseRows(headers, lines, stamp, index)[k].id.n >= stamp + index
  {
    if |lines| > 0 {
      ParseRowsStamped(headers, lines[1..], stamp, index + 1);
    }
  }

  /** Every row carries a stamp, and the stamps grow strictly along the rows. */
  predicate StampsIncrease(rows: seq<Row>) {
    forall k, l :: 0 <= k < l < |rows| ==> rows[k].id.Stamp? && rows[l].id.Stamp? && rows[k].id.n < rows[l].id.n
  }

  /** A stamp below every stamp of `rest` can go in front of it. */
  lemma {:induction false} StampsIncreaseCons(row: Row, rest: seq<Row>, n: nat)
    requires row.id == Stamp(n) && StampsIncrease(rest)
    requires forall k :: 0 <= k < |rest| ==> rest[k].id.Stamp? && rest[k].id.n > n
    ensures StampsIncrease([row] + rest)
  {
    var rows := [row] + rest;
    forall k, l | 0 <= k < l < |rows|
      ensures rows[k].id.Stamp? && rows[l].id.Stamp? && rows[k].id.n < rows[l].id.n
    {
      assert rows[l] == rest[l - 1];
      if k > 0 {
        assert rows[k] == rest[k - 1];
      }
    }
  }

  /** Without an `id` column the stamps grow strictly along the parsed rows. */
  lemma {:induction false} ParseRowsIncreasing(headers: seq<string>, lines: seq<string>, stamp: nat, index: nat)
    requires "id" !in headers
    ensures StampsIncrease(ParseRows(headers, lines, stamp, index))
  {
    if |lines| > 0 {
      ParseRowsStamped(headers, lines[1..], stamp, index + 1);
      ParseRowsIncreasing(headers, lines[1..], stamp, index + 1);
      var row := MakeRow(headers, Cells(lines[0]), stamp + index);
      var rest := ParseRows(headers, lines[1..], stamp, index + 1);
      assert row.id == Stamp(stamp + index);
      if HasData(row) {
        assert ParseRows(headers, lines, stamp, index) == [row] + rest;
        StampsIncreaseCons(row, rest, stamp + index);
      } else {
        assert ParseRows(headers, lines, stamp, index) == rest;
      }
    }
  }

  /** Without an `id` column no two parsed rows share an identifier. */
  lemma {:induction false} ParseRowsDistinct(headers: seq<string>, lines: seq<string>, stamp: nat, index: nat)
    requires "id" !in headers
    ensures DistinctIds(ParseRows(headers, lines, stamp, index))
  {
    ParseRowsStamped(headers, lines, stamp, index);
    ParseRowsIncreasing(headers, lines, stamp, index);
  }

  /** The rows are read line by line: the rows of two runs of data lines are
      the rows of the first run followed by those of the second, whose
      positions continue where the first run stopped. */
  lemma {:induction false} ParseRowsConcat(headers: seq<string>, a: seq<string>, b: seq<string>, stamp: nat, index: nat)
    ensures ParseRows(headers, a + b, stamp, index) ==
              ParseRows(headers, a, stamp, index) + ParseRows(headers, b, stamp, index + |a|)
  {
    if |a| > 0 {
      var ab, c := a + b, a[1..];
      assert ab[0] == a[0];
      assert ab[1..] == c + b;
      ParseRowsConcat(headers, c, b, stamp, index + 1);
      assert index + 1 + |c| == index + |a|;
      var later, rest := ParseRows(headers, c, stamp, index + 1), ParseRows(headers, b, stamp, index + |a|);
      var tail := ParseRows(headers, ab[1..], stamp, index + 1);
      assert tail == later + rest;
      var row := MakeRow(headers, Cells(a[0]), stamp + index);
      if HasData(row) {
        assert ParseRows(headers, ab, stamp, index) == [row] + tail;
        assert ParseRows(headers, a, stamp, index) == [row] + later;
        assert [row] + (later + rest) == ([row] + later) + rest;
      } else {
        assert ParseRows(headers, ab, stamp, index) == tail;
        assert ParseRows(headers, a, stamp, index) == later;
      }
    } else {
      assert a + b == b;
    }
  }

  /** One data line gives its row exactly when that row has a non-empty cell. */
  lemma ParseRowsOne(headers: seq<string>, line: string, stamp: nat, index: nat)
    ensures ParseRows(headers, [line], stamp, index) ==
              var row := MakeRow(headers, Cells(line), stamp + index);
              if HasData(row) then [row] else []
  {
    assert [line][0] == line;
    assert [line][1..] == [];
  }

  /** The parse body of the file loader: the table a text describes, or why
      there is none. `stamp` stands for the `Date.now()` reading the loader
      bases its row identifiers on, taken once for the whole text. */
  function Parse(content: string, stamp: nat): (r: Result<Table, ParseError>)
    ensures content == "" ==> r == Failure(EmptyContent)
    ensures r.Success? ==> |r.value.headers| > 0 && !AllEmpty(r.value.headers)
    ensures r.Success? ==> forall k :: 0 <= k < |r.value.headers| ==> '"' !in r.value.headers[k]
    ensures r.Success? ==> forall k :: 0 <= k < |r.value.rows| ==>
              r.value.rows[k].fields.Keys == FieldKeys(r.value.headers) && HasData(r.value.rows[k])
    ensures r.Success? && "id" !in r.value.headers ==> DistinctIds(r.value.rows)
  {
    if content == "" then Failure(EmptyContent)
    else
      var lines := Lines(content);
      if |lines| == 0 then Failure(NoDataLines)
      else
        var headers := Cells(lines[0]);
        CellsUnquoted(lines[0]);
        if AllEmpty(headers) then Failure(InvalidHeaders)
        else
          var rows := ParseRows(headers, lines[1..], stamp, 0);
          ParseRowsShape(headers, lines[1..], stamp, 0);
          if "id" in headers then Success(Table(headers, rows))
          else ParseRowsDistinct(headers, lines[1..], stamp, 0); Success(Table(headers, rows))
  }

  /** The fixed three-row example table the modal installs when there is no
      file or the file cannot be parsed (the numeric `taxa_evasao` cells are
      their decimal strings). */
  const ExampleHeaders: seq<string> := ["Nome", "Curso", "Campus", "Semestre", "taxa_evasao"]

  const ExampleRows: seq<Row> := [
    Row(Stamp(1), map["Nome" := "João", "Curso" := "Engenharia", "Campus" := "Quixadá", "Semestre" := "2020.1", "taxa_evasao" := "10"]),
    Row(Stamp(2), map["Nome" := "Maria", "Curso" := "Medicina", "Campus" := "Russas", "Semestre" := "2019.2", "taxa_evasao" := "12"]),
    Row(Stamp(3), map["Nome" := "Pedro", "Curso" := "Direito", "Campus" := "Itapajé", "Semestre" := "2021.1", "taxa_evasao" := "15"])
  ]

  const ExampleTable: Table := Table(ExampleHeaders, ExampleRows)

  /** The `try`/`catch` around the parse: the parsed table, or the example
      table together with the error that was reported. */
  function ParseOrExample(content: string, stamp: nat): (r: (Table, Option<ParseError>))
    ensures |r.0.headers| > 0 && !AllEmpty(r.0.headers)
    ensures r.1.None? <==> Parse(content, stamp).Success?
    ensures r.1.None? ==> r.0 == Parse(content, stamp).value
    ensures r.1.Some? ==> r.0 == ExampleTable && Parse(content, stamp) == Failure(r.1.value)
  {
    match Parse(content, stamp)
    case Success(t) => (t, None)
    case Failure(e) => assert ExampleHeaders[0] != ""; (ExampleTable, Some(e))
  }

  // ------------------------------------------------------------------
  // writing

  /** A value the writer encloses in quotes: it holds a comma, a double quote
      or a line feed. */
  predicate NeedsQuoting(v: string) {
    ',' in v || '"' in v || '\n' in v
  }

  /** `v.replace(/"/g, '""')`. */
  function DoubleQuotes(v: string): (r: string)
    ensures |r| >= |v|
  {
    if |v| == 0 then ""
    else (if v[0] == '"' then "\"\"" else [v[0]]) + DoubleQuotes(v[1..])
  }

  /** One written field. */
  function QuoteField(v: string): string {
    if NeedsQuoting(v) then "\"" + DoubleQuotes(v) + "\"" else v
  }

  /** `currentHeaders.filter(header => header !== 'id')`. */
  function WithoutId(headers: seq<string>): (r: seq<string>)
    ensures "id" !in r
    ensures forall h :: h in r <==> h in headers && h != "id"
    ensures "id" !in headers ==> r == headers
  {
    if |headers| == 0 then []
    else (if headers[0] == "id" then [] else [headers[0]]) + WithoutId(headers[1..])
  }

  /** The header filter works header by header: it keeps every header other
      than `id`, in order and with its repeats. */
  lemma {:induction false} WithoutIdConcat(a: seq<string>, b: seq<string>)
    ensures WithoutId(a + b) == WithoutId(a) + WithoutId(b)
  {
    if |a| > 0 {
      assert (a + b)[0] == a[0];
      assert (a + b)[1..] == a[1..] + b;
      WithoutIdConcat(a[1..], b);
    } else {
      assert a + b == b;
    }
  }

  /** `csvHeaders.map(header => row[header])`: a row's cells in column order. */
  function Values(headers: seq<string>, row: Row): (r: seq<string>)
    ensures |r| == |headers|
    ensures forall i :: 0 <= i < |headers| ==> r[i] == Cell(row, headers[i])
  {
    if |headers| == 0 then []
    else [Cell(row, headers[0])] + Values(headers[1..], row)
  }

  /** Every value quoted as the writer quotes it. */
  function QuoteAll(values: seq<string>): (r: seq<string>)
    ensures |r| == |values|
    ensures forall i :: 0 <= i < |values| ==> r[i] == QuoteField(values[i])
  {
    if |values| == 0 then []
    else [QuoteField(values[0])] + QuoteAll(values[1..])
  }

  /** Values that need no quoting are written as they are. */
  lemma {:induction false} QuoteAllBare(values: seq<string>)
    requires forall i :: 0 <= i < |values| ==> !NeedsQuoting(values[i])
    ensures QuoteAll(values) == values
  {
    if |values| > 0 {
      assert !NeedsQuoting(values[0]);
      QuoteAllBare(values[1..]);
      assert [values[0]] + values[1..] == values;
    }
  }

  /** The written line of one row: its quoted cells joined by commas. */
  function RecordLine(headers: seq<string>, row: Row): string {
    Join(QuoteAll(Values(headers, row)), ',')
  }

  /** The written lines of all rows, in table order. */
  function RecordLines(headers: seq<string>, rows: seq<Row>): (r: seq<string>)
    ensures |r| == |rows|
    ensures forall k :: 0 <= k < |rows| ==> r[k] == RecordLine(headers, rows[k])
  {
    if |rows| == 0 then []
    else [RecordLine(headers, rows[0])] + RecordLines(headers, rows[1..])
  }

  /** `convertTableDataToCsv(data, currentHeaders)`. With no rows the header
      line keeps any `id` column and ends in `\n`; otherwise `id` is dropped
      and the lines are joined with `\n`, with none after the last. */
  function Serialize(headers: seq<string>, rows: seq<Row>): string {
    if |rows| == 0 then Join(headers, ',') + "\n"
    else
      var columns := WithoutId(headers);
      Join([Join(columns, ',')] + RecordLines(columns, rows), '\n')
  }

  // ------------------------------------------------------------------
  // reading a written field back, as RFC 4180 does

  /** The body of a quoted field read back: every `"` must be half of a `""`
      pair, which stands for one `"`. */
  function UndoubleQuotes(s: string): Option<string> {
    if |s| == 0 then Some("")
    else if s[0] != '"' then
      match UndoubleQuotes(s[1..])
      case Some(t) => Some([s[0]] + t)
      case None => None
    else if |s| >= 2 && s[1] == '"' then
      match UndoubleQuotes(s[2..])
      case Some(t) => Some("\"" + t)
      case None => None
    else None
  }

  /** One field read as RFC 4180, section 2, rules 5 to 7, read it: a field in
      quotes has its inner quotes undoubled; a bare field may hold no quote. */
  function ReadField(f: string): Option<string> {
    if |f| >= 2 && f[0] == '"' && f[|f| - 1] == '"' then UndoubleQuotes(f[1..|f| - 1])
    else if '"' in f then None
    else Some(f)
  }

  lemma {:induction false} UndoubleDoubled(v: string)
    ensures UndoubleQuotes(DoubleQuotes(v)) == Some(v)
  {
    if |v| > 0 {
      UndoubleDoubled(v[1..]);
      var d := DoubleQuotes(v);
      if v[0] == '"' {
        assert d == "\"\"" + DoubleQuotes(v[1..]);
        assert d[2..] == DoubleQuotes(v[1..]);
      } else {
        assert d == [v[0]] + DoubleQuotes(v[1..]);
        assert d[1..] == DoubleQuotes(v[1..]);
      }
      assert [v[0]] + v[1..] == v;
    }
  }

  /** Every written field reads back, under RFC 4180, as the value written. */
  lemma {:induction false} QuoteFieldReadsBack(v: string)
    ensures ReadField(QuoteField(v)) == Some(v)
    ensures NeedsQuoting(v) <==> QuoteField(v) != v
  {
    if NeedsQuoting(v) {
      var f := QuoteField(v);
      assert f[1..|f| - 1] == DoubleQuotes(v);
      UndoubleDoubled(v);
    }
  }

  // ------------------------------------------------------------------
  // what reading promises

  /** Pieces of a blank text are blank. */
  lemma {:induction false} SplitBlank(s: string, sep: char)
    requires IsBlank(s)
    ensures forall k :: 0 <= k < |Split(s, sep)| ==> IsBlank(Split(s, sep)[k])
  {
    if |s| > 0 {
      SplitBlank(s[1..], sep);
      var rest := Split(s[1..], sep);
      assert IsBlank(s[1..]);
      if s[0] != sep {
        assert IsBlank([s[0]] + rest[0]);
      }
    }
  }

  /** Blank pieces joined by a whitespace separator make a blank text. */
  lemma {:induction false} JoinBlank(parts: seq<string>, sep: char)
    requires IsWhitespace(sep)
    requires forall k :: 0 <= k < |parts| ==> IsBlank(parts[k])
    ensures IsBlank(Join(parts, sep))
  {
    if |parts| > 1 {
      JoinBlank(parts[1..], sep);
      assert IsBlank(parts[0] + [sep]);
    }
  }

  /** A text has a non-blank line exactly when it is not blank. */
  lemma {:induction false} LinesEmptyIff(content: string)
    ensures Lines(content) == [] <==> IsBlank(content)
  {
    var pieces := Split(content, '\n');
    NonBlankLinesEmpty(pieces);
    if IsBlank(content) {
      SplitBlank(content, '\n');
      assert forall line :: line in pieces ==> IsBlank(line);
    } else if forall line :: line in pieces ==> IsBlank(line) {
      assert forall k :: 0 <= k < |pieces| ==> IsBlank(pieces[k]);
      JoinBlank(pieces, '\n');
      JoinSplit(content, '\n');
      assert false;
    }
  }

  /** The three ways a parse fails, each exactly when its condition holds,
      checked in this order. */
  lemma {:induction false} ParseFailures(content: string, stamp: nat)
    ensures Parse(content, stamp) == Failure(EmptyContent) <==> content == ""
    ensures Parse(content, stamp) == Failure(NoDataLines) <==> content != "" && IsBlank(content)
    ensures Parse(content, stamp) == Failure(InvalidHeaders) <==>
              !IsBlank(content) && AllEmpty(Cells(Lines(content)[0]))
    ensures Parse(content, stamp).Success? <==> !IsBlank(content) && !AllEmpty(Cells(Lines(content)[0]))
  {
    LinesEmptyIff(content);
  }

  /** The headers of a parse are the cleaned tokens of the first non-blank
      piece `i` of the text split at line feeds. */
  lemma {:induction false} ParseHeaders(content: string, stamp: nat) returns (i: nat)
    requires Parse(content, stamp).Success?
    ensures i < |Split(content, '\n')| && !IsBlank(Split(content, '\n')[i])
    ensures forall j :: 0 <= j < i ==> IsBlank(Split(content, '\n')[j])
    ensures Parse(content, stamp).value.headers == Cells(Split(content, '\n')[i])
  {
    i := NonBlankLinesFirst(Split(content, '\n'));
  }

  /** Trimming comes before quote removal: a token in quotes is not trimmed
      inside, so only its quotes go. */
  lemma {:induction false} TrimBeforeUnquote(v: string)
    ensures CleanToken("\"" + v + "\"") == Without(v, '"')
  {
    var q: string := "\"";
    var t := q + v + q;
    assert t[0] == '"' && t[|t| - 1] == '"';
    assert Trim(t) == t;
    assert Without(q, '"') == "" by {
      assert q[1..] == "";
    }
    WithoutConcat(q + v, q, '"');
    WithoutConcat(q, v, '"');
  }

  /** A quoted token without inner quotes reads as exactly what is between
      the quotes, whitespace included. */
  lemma {:induction false} QuotedKept(v: string)
    requires '"' !in v
    ensures CleanToken("\"" + v + "\"") == v
  {
    TrimBeforeUnquote(v);
    WithoutRemoves(v, '"');
  }

  // ------------------------------------------------------------------
  // what writing promises

  /** The written text starts with the header line: every header when the
      table is empty, and the headers other than `id` as soon as there is a row. */
  lemma SerializeHeaderLine(headers: seq<string>, rows: seq<Row>)
    ensures var line := Join(if |rows| == 0 then headers else WithoutId(headers), ',') + "\n";
      |line| <= |Serialize(headers, rows)| && Serialize(headers, rows)[..|line|] == line
  {
    if |rows| > 0 {
      var header := Join(WithoutId(headers), ',');
      var records := RecordLines(WithoutId(headers), rows);
      var pieces := [header] + records;
      assert pieces[0] == header && pieces[1..] == records;
      assert Serialize(headers, rows) == header + ['\n'] + Join(records, '\n');
    }
  }

  /** With headers `id,A`, the empty table keeps `id` and a table with one row drops it. */
  lemma SerializeIdExample()
    ensures Serialize(["id", "A"], []) == "id,A\n"
    ensures Serialize(["id", "A"], [Row(Stamp(0), map["A" := "x"])]) == "A\nx"
  {
    assert Join(["id", "A"], ',') == "id,A" by {
      assert Join(["id", "A"], ',') == "id" + [','] + Join(["A"], ',');
    }
    var row := Row(Stamp(0), map["A" := "x"]);
    var columns := WithoutId(["id", "A"]);
    assert columns == ["A"];
    var records := RecordLines(columns, [row]);
    assert records == ["x"] by {
      assert QuoteField(Cell(row, "A")) == "x";
      assert RecordLine(["A"], row) == "x";
    }
    var pieces := [Join(columns, ',')] + records;
    assert pieces == ["A", "x"];
    assert Serialize(["id", "A"], [row]) == Join(pieces, '\n');
    assert Join(["A", "x"], '\n') == "A\nx" by {
      assert Join(["A", "x"], '\n') == "A" + ['\n'] + Join(["x"], '\n');
    }
  }

  lemma {:induction false} DoubleQuotesConcat(a: string, b: string)
    ensures DoubleQuotes(a + b) == DoubleQuotes(a) + DoubleQuotes(b)
  {
    if |a| == 0 {
      assert a + b == b;
    } else {
      DoubleQuotesConcat(a[1..], b);
      var head := if a[0] == '"' then "\"\"" else [a[0]];
      assert (a + b)[0] == a[0] && (a + b)[1..] == a[1..] + b;
      assert DoubleQuotes(a + b) == head + DoubleQuotes(a[1..] + b);
      assert DoubleQuotes(a) == head + DoubleQuotes(a[1..]);
      AppendAssoc(head, DoubleQuotes(a[1..]), DoubleQuotes(b));
    }
  }

  lemma {:induction false} DoubleQuotesNone(v: string)
    requires '"' !in v
    ensures DoubleQuotes(v) == v
  {
    if |v| > 0 {
      DoubleQuotesNone(v[1..]);
      assert [v[0]] + v[1..] == v;
    }
  }

  /** Doubling the quotes of `a"b"` when `a` and `b` have none. */
  lemma {:induction false} DoubleQuotesOfQuoted(a: string, b: string)
    requires '"' !in a && '"' !in b
    ensures DoubleQuotes(a + "\"" + b + "\"") == a + "\"\"" + b + "\"\""
  {
    var q: string := "\"";
    var qq: string := "\"\"";
    assert DoubleQuotes(q) == qq by {
      assert q[1..] == "";
    }
    DoubleQuotesNone(a);
    DoubleQuotesNone(b);
    calc {
      DoubleQuotes(a + q + b + q);
      { DoubleQuotesConcat(a + q + b, q); }
      DoubleQuotes(a + q + b) + qq;
      { DoubleQuotesConcat(a + q, b); }
      DoubleQuotes(a + q) + b + qq;
      { DoubleQuotesConcat(a, q); }
      a + qq + b + qq;
    }
  }

  /** A value with quotes in it is enclosed in quotes, each inner quote doubled. */
  lemma {:induction false} QuoteAroundQuoted(a: string, b: string)
    requires '"' !in a && '"' !in b
    ensures QuoteField(a + "\"" + b + "\"") == "\"" + (a + "\"\"" + b + "\"\"") + "\""
  {
    var v := a + "\"" + b + "\"";
    assert v[|a|] == '"';
    DoubleQuotesOfQuoted(a, b);
  }

  /** The quoting of `He said, "hi"`. */
  lemma QuoteFieldExample()
    ensures QuoteField("He said, \"hi\"") == "\"He said, \"\"hi\"\"\""
  {
    var a, b := "He said, ", "hi";
    assert '"' !in a && '"' !in b;
    QuoteAroundQuoted(a, b);
    assert a + "\"" + b + "\"" == "He said, \"hi\"";
    assert "\"" + (a + "\"\"" + b + "\"\"") + "\"" == "\"He said, \"\"hi\"\"\"";
  }
}
