/**
  The settings modal's state and its event handlers. The table is edited one
  row at a time: the row being edited is named by `editingRowId`, its scratch
  copy is `newRowData`, and `validationErrors` holds the columns the last
  save attempt found blank. Each handler issues several React state updates;
  a method here makes the net change they add up to once React has applied
  them, followed by the effect that recomputes the campus facet when the
  table or its columns were set.
*/
module Editor {
  import opened Wrappers
  import opened Text
  import opened Rows
  import opened Csv
  import opened Validation
  import opened Sorting
  import opened Campus
  import opened CsvRoundTrip

  // ------------------------------------------------------------------
  // operations on the list of rows

  /** `rows.filter(row => row.id !== id)`. */
  function RowsWithout(rows: seq<Row>, id: RowId): (r: seq<Row>)
    ensures forall x :: x in r <==> x in rows && x.id != id
    ensures IsSubsequence(r, rows)
    ensures (forall k :: 0 <= k < |rows| ==> rows[k].id != id) ==> r == rows
  {
    if |rows| == 0 then []
    else
      var rest := RowsWithout(rows[1..], id);
      assert forall x :: x in rows <==> x == rows[0] || x in rows[1..];
      if rows[0].id != id then [rows[0]] + rest else rest
  }

  /** The filter works row by row: it keeps every row with another
      identifier, in order and with its repeats. */
  lemma {:induction false} RowsWithoutConcat(a: seq<Row>, b: seq<Row>, id: RowId)
    ensures RowsWithout(a + b, id) == RowsWithout(a, id) + RowsWithout(b, id)
  {
    if |a| > 0 {
      assert (a + b)[0] == a[0];
      assert (a + b)[1..] == a[1..] + b;
      RowsWithoutConcat(a[1..], b, id);
    } else {
      assert a + b == b;
    }
  }

  /** `rows.map(row => row.id === id ? replacement : row)`. */
  function ReplaceRows(rows: seq<Row>, id: RowId, replacement: Row): (r: seq<Row>)
    ensures |r| == |rows|
    ensures forall k :: 0 <= k < |rows| ==> r[k] == (if rows[k].id == id then replacement else rows[k])
  {
    if |rows| == 0 then []
    else [if rows[0].id == id then replacement else rows[0]] + ReplaceRows(rows[1..], id, replacement)
  }

  /** Saving keeps every row with another identifier where it was, brings in
      nothing but the replacement, and brings the replacement in whenever a
      row carried `id`. */
  lemma {:induction false} ReplaceRowsMembers(rows: seq<Row>, id: RowId, replacement: Row)
    ensures forall x :: x in ReplaceRows(rows, id, replacement) ==> x in rows || x == replacement
    ensures forall x :: x in rows && x.id != id ==> x in ReplaceRows(rows, id, replacement)
    ensures HasId(rows, id) ==> replacement in ReplaceRows(rows, id, replacement)
  {
    var r := ReplaceRows(rows, id, replacement);
    forall x | x in r
      ensures x in rows || x == replacement
    {
      var k :| 0 <= k < |r| && r[k] == x;
    }
    forall x | x in rows && x.id != id
      ensures x in r
    {
      var k :| 0 <= k < |rows| && rows[k] == x;
      assert r[k] == x;
    }
    if HasId(rows, id) {
      var k :| 0 <= k < |rows| && rows[k].id == id;
      assert r[k] == replacement;
    }
  }

  /** Some row carries identifier `id`. */
  predicate HasId(rows: seq<Row>, id: RowId) {
    exists k :: 0 <= k < |rows| && rows[k].id == id
  }

  /** The position `rows.find(row => row.id === id)` stops at. */
  function FindIndex(rows: seq<Row>, id: RowId): (r: Option<nat>)
    ensures r.None? <==> !HasId(rows, id)
    ensures r.Some? ==> r.value < |rows| && rows[r.value].id == id
    ensures r.Some? ==> forall k :: 0 <= k < r.value ==> rows[k].id != id
  {
    if |rows| == 0 then None
    else if rows[0].id == id then Some(0)
    else
      match FindIndex(rows[1..], id)
      case None =>
        assert forall k :: 1 <= k < |rows| ==> rows[k] == rows[1..][k - 1];
        None
      case Some(i) => Some(i + 1)
  }

  /** `rows.find(row => row.id === id)`: the first row with that identifier. */
  function FindRow(rows: seq<Row>, id: RowId): (r: Option<Row>)
    ensures r.None? <==> !HasId(rows, id)
    ensures r.Some? ==> r.value.id == id && r.value in rows
  {
    match FindIndex(rows, id)
    case None => None
    case Some(i) => Some(rows[i])
  }

  /** `Object.keys(row)`: the `id` key and one key per cell. */
  function KeyNames(row: Row): set<string> {
    {"id"} + row.fields.Keys
  }

  /** `rows.some(row => row.id === id && Object.keys(row).length > 1)`. */
  predicate HasSavedRow(rows: seq<Row>, id: RowId) {
    exists k :: 0 <= k < |rows| && rows[k].id == id && |KeyNames(rows[k])| > 1
  }

  /** `handleCancelEdit` removes the edited row: something is being edited,
      there is a scratch copy, and no row with that identifier has a key
      besides `id`. */
  predicate CancelRemoves(rows: seq<Row>, editing: Option<RowId>, scratch: Option<Row>) {
    editing.Some? && scratch.Some? && !HasSavedRow(rows, editing.value)
  }

  /** `handleEdit` on `id` while another row is being edited. */
  predicate Switching(editing: Option<RowId>, id: RowId) {
    editing.Some? && editing.value != id
  }

  /** The rows after `handleCancelEdit`. */
  function AfterCancel(rows: seq<Row>, editing: Option<RowId>, scratch: Option<Row>): seq<Row> {
    if CancelRemoves(rows, editing, scratch) then RowsWithout(rows, editing.value) else rows
  }

  /** Cancel never alters a row: it keeps some of the rows, in order, and it
      keeps every row that is not the edited one. */
  lemma {:induction false} CancelKeepsRows(rows: seq<Row>, editing: Option<RowId>, scratch: Option<Row>)
    ensures IsSubsequence(AfterCancel(rows, editing, scratch), rows)
    ensures forall x :: x in AfterCancel(rows, editing, scratch) ==> x in rows
    ensures forall x :: x in rows && (editing.None? || x.id != editing.value) ==> x in AfterCancel(rows, editing, scratch)
  {
    SubsequenceReflexive(rows);
    SubsequenceMembers(AfterCancel(rows, editing, scratch), rows);
  }

  /** The row `handleAddRow` appends: `{ id: stamp }` with every column set to
      the empty string, which is the row built from no values at all. */
  function BlankRow(headers: seq<string>, stamp: nat): Row {
    MakeRow(headers, [], stamp)
  }

  /** The blank row holds an empty cell for each column other than `id`; a
      column named `id` turns its identifier into the empty string. */
  lemma {:induction false} BlankRowShape(headers: seq<string>, stamp: nat)
    ensures BlankRow(headers, stamp).fields.Keys == FieldKeys(headers)
    ensures forall h :: h in BlankRow(headers, stamp).fields ==> BlankRow(headers, stamp).fields[h] == ""
    ensures BlankRow(headers, stamp).id == if "id" in headers then Named("") else Stamp(stamp)
  {
    var fields := BlankRow(headers, stamp).fields;
    forall h | h in fields
      ensures fields[h] == ""
    {
      var i := LastOccurrenceExists(headers, h);
      BuildFieldsLast(headers, [], i);
    }
    if "id" in headers {
      var i := LastOccurrenceExists(headers, "id");
      IdOfLast(headers, [], stamp, i);
    }
  }

  /** As written, cancelling a row just added does not remove it once some
      column is not `id`: the new row already has a key besides `id`. The
      blank row stays in the table. */
  lemma {:induction false} CancelAfterAddKeepsBlank(rows: seq<Row>, headers: seq<string>, stamp: nat)
    requires exists k :: 0 <= k < |headers| && headers[k] != "id"
    ensures var b := BlankRow(headers, stamp);
            AfterCancel(rows + [b], Some(b.id), Some(b)) == rows + [b]
  {
    var b := BlankRow(headers, stamp);
    BlankRowShape(headers, stamp);
    var k :| 0 <= k < |headers| && headers[k] != "id";
    assert headers[k] in KeyNames(b) && "id" in KeyNames(b);
    assert {"id", headers[k]} <= KeyNames(b);
    assert |{"id", headers[k]}| == 2;
    SubsetCardinality({"id", headers[k]}, KeyNames(b));
    assert (rows + [b])[|rows|] == b;
  }

  lemma {:induction false} SubsetCardinality(a: set<string>, b: set<string>)
    requires a <= b
    ensures |a| <= |b|
  {
    assert b == a + (b - a);
  }

  /** With no column other than `id`, cancelling a row just added (under a
      stamp no other row carries) removes it again. */
  lemma {:induction false} CancelAfterAddRemovesBare(rows: seq<Row>, headers: seq<string>, stamp: nat)
    requires forall k :: 0 <= k < |headers| ==> headers[k] == "id"
    requires !HasId(rows, BlankRow(headers, stamp).id)
    ensures var b := BlankRow(headers, stamp);
            AfterCancel(rows + [b], Some(b.id), Some(b)) == rows
  {
    var b := BlankRow(headers, stamp);
    BlankRowShape(headers, stamp);
    assert FieldKeys(headers) == {};
    assert KeyNames(b) == {"id"};
    var all := rows + [b];
    forall k | 0 <= k < |all| && all[k].id == b.id
      ensures |KeyNames(all[k])| <= 1
    {
      assert k == |rows|;
    }
    assert RowsWithout(all, b.id) == rows by {
      assert all[..|rows|] == rows;
      RowsWithoutAppend(rows, b, b.id);
    }
  }

  lemma {:induction false} RowsWithoutAppend(rows: seq<Row>, last: Row, id: RowId)
    requires last.id == id && !HasId(rows, id)
    ensures RowsWithout(rows + [last], id) == rows
  {
    if |rows| == 0 {
      assert [] + [last] == [last];
    } else {
      assert (rows + [last])[1..] == rows[1..] + [last];
      assert !HasId(rows[1..], id) by {
        forall k | 0 <= k < |rows[1..]|
          ensures rows[1..][k].id != id
        {
          assert rows[1..][k] == rows[k + 1];
        }
      }
      RowsWithoutAppend(rows[1..], last, id);
      assert [rows[0]] + rows[1..] == rows;
    }
  }

  /** The rows after `handleAddRow`: the scratch row is dropped if no row
      carries its identifier, the edit is cancelled, and the blank row is
      appended. */
  function AddedRows(rows: seq<Row>, editing: Option<RowId>, scratch: Option<Row>,
                     headers: seq<string>, stamp: nat): seq<Row>
  {
    var afterDrop :=
      if editing.Some? && scratch.Some? && !HasId(rows, scratch.value.id)
      then RowsWithout(rows, scratch.value.id) else rows;
    var afterCancel :=
      if CancelRemoves(rows, editing, scratch) then RowsWithout(afterDrop, editing.value) else afterDrop;
    afterCancel + [BlankRow(headers, stamp)]
  }

  /** The first filter in `handleAddRow` removes the rows carrying an
      identifier no row carries, so it changes nothing: adding a row is
      cancelling the edit and appending the blank row. */
  lemma {:induction false} AddIsCancelThenAppend(rows: seq<Row>, editing: Option<RowId>, scratch: Option<Row>,
                              headers: seq<string>, stamp: nat)
    ensures AddedRows(rows, editing, scratch, headers, stamp) == AfterCancel(rows, editing, scratch) + [BlankRow(headers, stamp)]
    ensures |AddedRows(rows, editing, scratch, headers, stamp)| <= |rows| + 1
  {
    CancelKeepsRows(rows, editing, scratch);
    SubsequenceLength(AfterCancel(rows, editing, scratch), rows);
  }

  lemma {:induction false} SubsequenceLength<T>(a: seq<T>, b: seq<T>)
    requires IsSubsequence(a, b)
    ensures |a| <= |b|
  {
    if |a| > 0 && |b| > 0 {
      if a[0] == b[0] {
        SubsequenceLength(a[1..], b[1..]);
      } else {
        SubsequenceLength(a, b[1..]);
      }
    }
  }

  /** `{ ...row, [header]: value }`: a column named `id` sets the identifier. */
  function ChangeCell(row: Row, header: string, value: string): (r: Row)
    ensures header != "id" ==> Cell(r, header) == value && r.id == row.id
    ensures header == "id" ==> r.id == Named(value) && r.fields == row.fields
    ensures forall g :: g != header ==> Cell(r, g) == Cell(row, g)
  {
    if header == "id" then Row(Named(value), row.fields)
    else Row(row.id, row.fields[header := value])
  }

  /** The error flags after typing `value` into `header`: its flag goes once
      the value is non-blank; no flag is ever added. */
  function ClearedErrors(errors: set<string>, header: string, value: string): (r: set<string>)
    ensures r <= errors
    ensures forall h :: h != header ==> (h in r <==> h in errors)
    ensures header in r <==> header in errors && IsBlank(value)
  {
    if header in errors && Trim(value) != "" then errors - {header} else errors
  }

  // ------------------------------------------------------------------
  // the example table

  /** In the example table the campus column is `Campus`, the third one. */
  lemma ExampleCampusColumn()
    ensures CampusColumn(ExampleHeaders) == Some("Campus")
  {
    var h := ExampleHeaders;
    NomeIsNotCampus();
    CursoIsNotCampus();
    CampusIsCampus();
    assert !IsCampusHeader(h[0]) && !IsCampusHeader(h[1]) && IsCampusHeader(h[2]);
    assert FirstCampus(h) == Some(2);
  }

  lemma NomeIsNotCampus()
    ensures !IsCampusHeader("Nome")
  {
    assert ToLower("Nome") == "nome";
  }

  lemma CursoIsNotCampus()
    ensures !IsCampusHeader("Curso")
  {
    var l := "curso";
    assert ToLower("Curso") == l;
    assert !Contains(l, "local") by {
      assert l[..5] != "local";
    }
  }

  lemma CampusIsCampus()
    ensures IsCampusHeader("Campus")
  {
    assert ToLower("Campus") == "campus";
    assert Contains("campus", "campus");
  }

  lemma ExampleCampusValues()
    ensures CampusValues("Campus", ExampleRows) == ["Quixadá", "Russas", "Itapajé"]
  {
    var rs := ExampleRows;
    CampusCell(rs[2], "Itapajé", []);
    CampusCell(rs[1], "Russas", [rs[2]]);
    CampusCell(rs[0], "Quixadá", [rs[1], rs[2]]);
    assert rs == [rs[0]] + [rs[1], rs[2]];
    assert [rs[1], rs[2]] == [rs[1]] + [rs[2]];
    assert [rs[2]] == [rs[2]] + [];
  }

  /** A row whose campus cell is `v`, without whitespace around it, puts
      `v` in front of the values of the rows after it. */
  lemma CampusCell(row: Row, v: string, rest: seq<Row>)
    requires Cell(row, "Campus") == v && |v| > 0 && !IsWhitespace(v[0]) && !IsWhitespace(v[|v| - 1])
    ensures CampusValues("Campus", [row] + rest) == [v] + CampusValues("Campus", rest)
  {
    TrimUnpadded(v);
    assert ([row] + rest)[1..] == rest;
  }

  /** The campuses offered for the example table, in the order of the
      code points of their names. */
  const ExampleCampuses: seq<string> := ["Itapajé", "Quixadá", "Russas"]

  lemma ExampleCampusesSorted()
    ensures StrictlySorted(ExampleCampuses)
  {
    var s := ExampleCampuses;
    assert Below(s[0], s[1]);
    assert Below(s[1], s[2]);
  }

  /** The example table offers its three campuses, sorted. */
  lemma ExampleFacet()
    ensures Facet(ExampleHeaders, ExampleRows) == ExampleCampuses
  {
    ExampleCampusColumn();
    ExampleCampusValues();
    ExampleCampusesSorted();
    var listing := ExampleCampuses;
    var values := ["Quixadá", "Russas", "Itapajé"];
    assert forall x :: x in listing <==> x in values;
    FacetIsCanonical(ExampleHeaders, ExampleRows, listing);
  }

  // ------------------------------------------------------------------
  // inputs and outputs of the modal

  /** What the file reader delivers: no file was given, its text, or a read error. */
  datatype FileInput = NoFile | Contents(text: string) | Unreadable

  /** The message shown for each way a file fails to parse. */
  function ParseMessage(e: ParseError): string {
    match e
    case EmptyContent => "Arquivo vazio ou não foi possível ler o conteúdo"
    case NoDataLines => "Arquivo não contém dados válidos"
    case InvalidHeaders => "Cabeçalhos não encontrados ou são inválidos"
  }

  const ReadFailureMessage: string := "Erro ao ler o arquivo"

  /** What `handleConfirm` hands to `onAnalyze`. */
  datatype Submission = Submission(csv: string, campuses: seq<string>, semester: string)

  /** Why `handleConfirm` refuses, in the order it checks. */
  datatype ConfirmError = NoData | BadSemester | EditInProgress

  // ------------------------------------------------------------------
  // the component state

  class AjustesModal {
    var tableData: seq<Row>
    var headers: seq<string>
    var editingRowId: Option<RowId>
    var newRowData: Option<Row>
    var selectedCampuses: seq<string>
    var maxSemester: string
    var validationErrors: set<string>
    var loadError: Option<string>
    var availableCampuses: seq<string>

    /** No scratch copy or error flags without a row being edited, and the
        offered campuses are the facet of the current table. */
    predicate Valid()
      reads this
    {
      && (editingRowId.None? ==> newRowData.None? && validationErrors == {})
      && availableCampuses == Facet(headers, tableData)
    }

    /** The initial state, before the effects of the first render. */
    constructor ()
      ensures Valid()
      ensures tableData == [] && headers == [] && editingRowId == None && newRowData == None
      ensures selectedCampuses == [] && maxSemester == "2019.1" && validationErrors == {}
      ensures loadError == None && availableCampuses == []
    {
      tableData := [];
      headers := [];
      editingRowId := None;
      newRowData := None;
      selectedCampuses := [];
      maxSemester := "2019.1";
      validationErrors := {};
      loadError := None;
      availableCampuses := [];
    }

    /** The effect on `[tableData, headers]`: recompute the facet and keep
        only the selected campuses it still offers. */
    method Refresh()
      modifies this
      ensures availableCampuses == Facet(headers, tableData)
      ensures selectedCampuses == Prune(old(selectedCampuses), availableCampuses)
      ensures tableData == old(tableData) && headers == old(headers)
      ensures editingRowId == old(editingRowId) && newRowData == old(newRowData)
      ensures maxSemester == old(maxSemester) && validationErrors == old(validationErrors)
      ensures loadError == old(loadError)
    {
      availableCampuses := Facet(headers, tableData);
      selectedCampuses := Prune(selectedCampuses, availableCampuses);
    }

    /** The setters of one handler, applied together as React batches them,
        then the effect on `[tableData, headers]`. */
    method Commit(rows: seq<Row>, editing: Option<RowId>, scratch: Option<Row>, errors: set<string>)
      requires editing.None? ==> scratch.None? && errors == {}
      modifies this
      ensures Valid()
      ensures tableData == rows && editingRowId == editing && newRowData == scratch && validationErrors == errors
      ensures selectedCampuses == Prune(old(selectedCampuses), availableCampuses)
      ensures headers == old(headers) && maxSemester == old(maxSemester) && loadError == old(loadError)
    {
      tableData, editingRowId, newRowData, validationErrors := rows, editing, scratch, errors;
      Refresh();
    }

    /** `setEditingRowId`, `setNewRowData` and `setValidationErrors`, with
        the table, its columns and the campus selection left as they are. */
    method SetEdit(editing: Option<RowId>, scratch: Option<Row>, errors: set<string>)
      requires Valid()
      requires editing.None? ==> scratch.None? && errors == {}
      modifies this
      ensures Valid()
      ensures editingRowId == editing && newRowData == scratch && validationErrors == errors
      ensures tableData == old(tableData) && headers == old(headers)
      ensures selectedCampuses == old(selectedCampuses) && availableCampuses == old(availableCampuses)
      ensures maxSemester == old(maxSemester) && loadError == old(loadError)
    {
      editingRowId, newRowData, validationErrors := editing, scratch, errors;
    }

    /** `setHeaders` and `setTableData` together, then the effect on them. */
    method Install(t: Table)
      requires editingRowId.None? ==> newRowData.None? && validationErrors == {}
      modifies this
      ensures Valid()
      ensures headers == t.headers && tableData == t.rows
      ensures selectedCampuses == Prune(old(selectedCampuses), availableCampuses)
      ensures editingRowId == old(editingRowId) && newRowData == old(newRowData)
      ensures validationErrors == old(validationErrors) && maxSemester == old(maxSemester)
      ensures loadError == old(loadError)
    {
      headers := t.headers;
      tableData := t.rows;
      Refresh();
    }

    /** The effect on `[file]`: install the parsed file, or the example table
        when there is no file or it does not parse; a read error only sets
        the message. `stamp` is the clock reading the rows are stamped from. */
    method LoadFile(input: FileInput, stamp: nat)
      requires Valid()
      modifies this
      ensures Valid()
      ensures input.NoFile? ==> headers == ExampleHeaders && tableData == ExampleRows && loadError == old(loadError)
      ensures input.NoFile? ==> availableCampuses == ExampleCampuses
      ensures input.Contents? && Parse(input.text, stamp).Success? ==>
                Table(headers, tableData) == Parse(input.text, stamp).value && loadError == None
      ensures input.Contents? && Parse(input.text, stamp).Failure? ==>
                headers == ExampleHeaders && tableData == ExampleRows
                && loadError == Some(ParseMessage(Parse(input.text, stamp).error))
      ensures input.Unreadable? ==>
                headers == old(headers) && tableData == old(tableData) && loadError == Some(ReadFailureMessage)
      ensures !input.Unreadable? ==> selectedCampuses == Prune(old(selectedCampuses), availableCampuses)
      ensures input.Unreadable? ==> selectedCampuses == old(selectedCampuses)
      ensures editingRowId == old(editingRowId) && newRowData == old(newRowData)
      ensures validationErrors == old(validationErrors) && maxSemester == old(maxSemester)
    {
      match input
      case NoFile =>
        Install(ExampleTable);
        ExampleFacet();
      case Contents(text) =>
        var (t, err) := ParseOrExample(text, stamp);
        loadError := if err.Some? then Some(ParseMessage(err.value)) else None;
        Install(t);
      case Unreadable =>
        loadError := Some(ReadFailureMessage);
    }

    /** `handleCancelEdit`: drop the edited row if it carries no key besides
        `id`, and go back to no edit. */
    method CancelEdit()
      requires Valid()
      modifies this
      ensures Valid()
      ensures tableData == AfterCancel(old(tableData), old(editingRowId), old(newRowData))
      ensures editingRowId == None && newRowData == None && validationErrors == {}
      ensures CancelRemoves(old(tableData), old(editingRowId), old(newRowData)) ==>
                selectedCampuses == Prune(old(selectedCampuses), availableCampuses)
      ensures !CancelRemoves(old(tableData), old(editingRowId), old(newRowData)) ==>
                selectedCampuses == old(selectedCampuses)
      ensures headers == old(headers) && maxSemester == old(maxSemester) && loadError == old(loadError)
    {
      if CancelRemoves(tableData, editingRowId, newRowData) {
        Commit(RowsWithout(tableData, editingRowId.value), None, None, {});
      } else {
        SetEdit(None, None, {});
      }
    }

    /** `handleEdit`: cancel an edit of another row, then edit row `id` with
        a copy of it (when the table has such a row) and no error flags. */
    method Edit(id: RowId)
      requires Valid()
      modifies this
      ensures Valid()
      ensures editingRowId == Some(id)
      ensures tableData == (if Switching(old(editingRowId), id) then AfterCancel(old(tableData), old(editingRowId), old(newRowData)) else old(tableData))
      ensures newRowData == (if FindRow(old(tableData), id).Some? then FindRow(old(tableData), id)
                             else if Switching(old(editingRowId), id) then None else old(newRowData))
      ensures validationErrors == (if FindRow(old(tableData), id).Some? || Switching(old(editingRowId), id) then {} else old(validationErrors))
      ensures Switching(old(editingRowId), id) && CancelRemoves(old(tableData), old(editingRowId), old(newRowData)) ==>
                selectedCampuses == Prune(old(selectedCampuses), availableCampuses)
      ensures !(Switching(old(editingRowId), id) && CancelRemoves(old(tableData), old(editingRowId), old(newRowData))) ==>
                selectedCampuses == old(selectedCampuses)
      ensures headers == old(headers) && maxSemester == old(maxSemester) && loadError == old(loadError)
    {
      var found := FindRow(tableData, id);
      if Switching(editingRowId, id) {
        CancelEdit();
      }
      if found.Some? {
        SetEdit(Some(id), found, {});
      } else {
        SetEdit(Some(id), newRowData, validationErrors);
      }
    }

    /** `handleRemove`, with the answer to the confirmation dialog: remove
        every row with identifier `id`, ending its edit. */
    method Remove(id: RowId, confirmed: bool)
      requires Valid()
      modifies this
      ensures Valid()
      ensures !confirmed ==> tableData == old(tableData) && selectedCampuses == old(selectedCampuses)
                             && editingRowId == old(editingRowId) && newRowData == old(newRowData)
                             && validationErrors == old(validationErrors)
      ensures confirmed ==> tableData == RowsWithout(old(tableData), id)
                            && selectedCampuses == Prune(old(selectedCampuses), availableCampuses)
      ensures confirmed && old(editingRowId) == Some(id) ==>
                editingRowId == None && newRowData == None && validationErrors == {}
      ensures confirmed && old(editingRowId) != Some(id) ==>
                editingRowId == old(editingRowId) && newRowData == old(newRowData)
                && validationErrors == old(validationErrors)
      ensures headers == old(headers) && maxSemester == old(maxSemester) && loadError == old(loadError)
    {
      if confirmed {
        if editingRowId == Some(id) {
          Commit(RowsWithout(tableData, id), None, None, {});
        } else {
          Commit(RowsWithout(tableData, id), editingRowId, newRowData, validationErrors);
        }
      }
    }

    /** `handleAddRow`: end any edit (cancelling it), append a blank row
        stamped `stamp`, and edit it. */
    method AddRow(stamp: nat)
      requires Valid()
      modifies this
      ensures Valid()
      ensures tableData == AddedRows(old(tableData), old(editingRowId), old(newRowData), headers, stamp)
      ensures editingRowId == Some(BlankRow(headers, stamp).id) && newRowData == Some(BlankRow(headers, stamp))
      ensures validationErrors == {}
      ensures selectedCampuses == Prune(old(selectedCampuses), availableCampuses)
      ensures headers == old(headers) && maxSemester == old(maxSemester) && loadError == old(loadError)
    {
      var blank := BlankRow(headers, stamp);
      Commit(AddedRows(tableData, editingRowId, newRowData, headers, stamp), Some(blank.id), Some(blank), {});
    }

    /** `handleCellChange`: update the scratch copy and clear the column's
        error flag once it holds a non-blank value. */
    method CellChange(header: string, value: string)
      requires Valid()
      modifies this
      ensures Valid()
      ensures old(newRowData).None? ==> newRowData == None && validationErrors == old(validationErrors)
      ensures old(newRowData).Some? ==>
                newRowData == Some(ChangeCell(old(newRowData).value, header, value))
                && validationErrors == ClearedErrors(old(validationErrors), header, value)
      ensures tableData == old(tableData) && headers == old(headers) && editingRowId == old(editingRowId)
      ensures selectedCampuses == old(selectedCampuses) && availableCampuses == old(availableCampuses)
      ensures maxSemester == old(maxSemester) && loadError == old(loadError)
    {
      if newRowData.Some? {
        SetEdit(editingRowId, Some(ChangeCell(newRowData.value, header, value)),
                ClearedErrors(validationErrors, header, value));
      }
    }

    /** `handleSaveRow`: with a blank column, flag exactly the blank columns
        and keep editing; otherwise put the scratch copy in place of row
        `id` and end the edit. */
    method SaveRow(id: RowId)
      requires Valid()
      modifies this
      ensures Valid()
      ensures old(newRowData).None? ==>
                tableData == old(tableData) && editingRowId == old(editingRowId) && newRowData == old(newRowData)
                && validationErrors == old(validationErrors) && selectedCampuses == old(selectedCampuses)
      ensures old(newRowData).Some? && MissingFields(headers, old(newRowData).value) != {} ==>
                tableData == old(tableData) && editingRowId == old(editingRowId) && newRowData == old(newRowData)
                && validationErrors == MissingFields(headers, old(newRowData).value)
                && selectedCampuses == old(selectedCampuses)
      ensures old(newRowData).Some? && MissingFields(headers, old(newRowData).value) == {} ==>
                tableData == ReplaceRows(old(tableData), id, old(newRowData).value)
                && editingRowId == None && newRowData == None && validationErrors == {}
                && selectedCampuses == Prune(old(selectedCampuses), availableCampuses)
      ensures headers == old(headers) && maxSemester == old(maxSemester) && loadError == old(loadError)
    {
      if newRowData.None? {
        return;
      }
      var errors := MissingFields(headers, newRowData.value);
      if errors != {} {
        validationErrors := errors;
        return;
      }
      Commit(ReplaceRows(tableData, id, newRowData.value), None, None, {});
    }

    /** `handleToggleCampus`. */
    method ToggleCampus(campus: string)
      requires Valid()
      modifies this
      ensures Valid()
      ensures selectedCampuses == Toggled(old(selectedCampuses), campus)
      ensures tableData == old(tableData) && headers == old(headers) && editingRowId == old(editingRowId)
      ensures newRowData == old(newRowData) && validationErrors == old(validationErrors)
      ensures maxSemester == old(maxSemester) && loadError == old(loadError) && availableCampuses == old(availableCampuses)
    {
      selectedCampuses := Toggled(selectedCampuses, campus);
    }

    /** `handleSelectAllCampuses`: select every offered campus. */
    method SelectAllCampuses()
      requires Valid()
      modifies this
      ensures Valid()
      ensures selectedCampuses == availableCampuses
      ensures tableData == old(tableData) && headers == old(headers) && editingRowId == old(editingRowId)
      ensures newRowData == old(newRowData) && validationErrors == old(validationErrors)
      ensures maxSemester == old(maxSemester) && loadError == old(loadError) && availableCampuses == old(availableCampuses)
    {
      selectedCampuses := availableCampuses;
    }

    /** `handleDeselectAllCampuses`: select nothing. */
    method DeselectAllCampuses()
      requires Valid()
      modifies this
      ensures Valid()
      ensures selectedCampuses == []
      ensures tableData == old(tableData) && headers == old(headers) && editingRowId == old(editingRowId)
      ensures newRowData == old(newRowData) && validationErrors == old(validationErrors)
      ensures maxSemester == old(maxSemester) && loadError == old(loadError) && availableCampuses == old(availableCampuses)
    {
      selectedCampuses := [];
    }

    /** The semester input's `onChange`. */
    method SetMaxSemester(semester: string)
      requires Valid()
      modifies this
      ensures Valid()
      ensures maxSemester == semester
      ensures tableData == old(tableData) && headers == old(headers) && editingRowId == old(editingRowId)
      ensures newRowData == old(newRowData) && validationErrors == old(validationErrors)
      ensures selectedCampuses == old(selectedCampuses) && loadError == old(loadError)
      ensures availableCampuses == old(availableCampuses)
    {
      maxSemester := semester;
    }

    /** `handleConfirm`: refuse an empty table, then an invalid semester, then
        an edit in progress; otherwise hand over the table as CSV text with
        the selected campuses and the semester. Nothing changes either way. */
    function Confirm(): (r: Result<Submission, ConfirmError>)
      reads this
      ensures r.Success? <==> |tableData| > 0 && IsValidSemester(maxSemester) && editingRowId.None?
      ensures |tableData| == 0 ==> r == Failure(NoData)
      ensures |tableData| > 0 && !IsValidSemester(maxSemester) ==> r == Failure(BadSemester)
      ensures |tableData| > 0 && IsValidSemester(maxSemester) && editingRowId.Some? ==> r == Failure(EditInProgress)
      ensures r.Success? ==> r.value == Submission(Serialize(headers, tableData), selectedCampuses, maxSemester)
    {
      if |tableData| == 0 then Failure(NoData)
      else if !IsValidSemester(maxSemester) then Failure(BadSemester)
      else if editingRowId.Some? then Failure(EditInProgress)
      else Success(Submission(Serialize(headers, tableData), selectedCampuses, maxSemester))
    }
  }

  /** The text `handleConfirm` hands over reads back, through the modal's own
      parser, as the table it was made from whenever that table is clean:
      same columns, same cells, rows in the same order, new stamps. */
  lemma {:induction false} ConfirmedCsvReadsBack(modal: AjustesModal, stamp: nat)
    requires modal.Confirm().Success?
    requires RoundTrippable(Table(modal.headers, modal.tableData))
    ensures Parse(modal.Confirm().value.csv, stamp) == Success(Table(modal.headers, Restamped(modal.tableData, stamp, 0)))
  {
    RoundTrip(Table(modal.headers, modal.tableData), stamp);
  }
}
