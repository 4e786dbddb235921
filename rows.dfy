/**
  The table the settings modal edits: rows with a synthetic identifier and one
  string cell per column, and the way one row object is filled from a list
  of column names and a list of values.
*/
module Rows {

  /** A row identifier. The modal stamps rows with a number (`Date.now()`,
      plus the line index while parsing); a column literally named `id`
      overwrites that number with the column's string value. */
  datatype RowId = Stamp(n: nat) | Named(s: string)

  /** One table row: its identifier and its cells, keyed by column name. The
      identifier is kept apart, so `fields` never needs an `id` key. */
  datatype Row = Row(id: RowId, fields: map<string, string>)

  /** Column names plus rows, in display and serialisation order. */
  datatype Table = Table(headers: seq<string>, rows: seq<Row>)

  /** `row[header]` read as a string: a missing cell reads as the empty string,
      which is how the modal's validation, facet and serialisation treat
      `undefined`. */
  function Cell(row: Row, header: string): string {
    if header in row.fields then row.fields[header] else ""
  }

  /** The cell keys a row built from `headers` carries. */
  function FieldKeys(headers: seq<string>): set<string> {
    set h | h in headers && h != "id"
  }

  /** `values[i] || ''`: a missing value reads as the empty string. */
  function ValueAt(values: seq<string>, i: nat): string {
    if i < |values| then values[i] else ""
  }

  /** `i` is the last position at which `headers` holds `headers[i]`. */
  predicate LastOccurrence(headers: seq<string>, i: nat) {
    i < |headers| && forall j :: i < j < |headers| ==> headers[j] != headers[i]
  }

  /** A column name that occurs has a last position. */
  lemma {:induction false} LastOccurrenceExists(headers: seq<string>, h: string) returns (i: nat)
    requires h in headers
    ensures LastOccurrence(headers, i) && headers[i] == h
  {
    var n := |headers| - 1;
    if headers[n] == h {
      i := n;
    } else {
      var front := headers[..n];
      assert h in front;
      i := LastOccurrenceExists(front, h);
    }
  }

  /** The cells that `headers.forEach((header, i) => row[header] = values[i] || '')`
      writes, other than `id`: one per column name (the value each one ends
      up with is given by BuildFieldsLast). */
  function BuildFields(headers: seq<string>, values: seq<string>): (m: map<string, string>)
    ensures m.Keys == FieldKeys(headers)
  {
    if |headers| == 0 then map[]
    else
      var n := |headers| - 1;
      var m0 := BuildFields(headers[..n], values);
      assert headers == headers[..n] + [headers[n]];
      if headers[n] == "id" then m0 else m0[headers[n] := ValueAt(values, n)]
  }

  /** A repeated column name keeps the value of its last position. */
  lemma {:induction false} BuildFieldsLast(headers: seq<string>, values: seq<string>, i: nat)
    requires LastOccurrence(headers, i) && headers[i] != "id"
    ensures headers[i] in BuildFields(headers, values)
    ensures BuildFields(headers, values)[headers[i]] == ValueAt(values, i)
  {
    var n := |headers| - 1;
    var front := headers[..n];
    var m0 := BuildFields(front, values);
    if i == n {
      assert BuildFields(headers, values) == m0[headers[n] := ValueAt(values, n)];
    } else {
      assert front[i] == headers[i] && headers[n] != headers[i];
      assert LastOccurrence(front, i);
      BuildFieldsLast(front, values, i);
      if headers[n] == "id" {
        assert BuildFields(headers, values) == m0;
      } else {
        assert BuildFields(headers, values) == m0[headers[n] := ValueAt(values, n)];
      }
    }
  }

  /** The row's `id` after the same `forEach`: the stamp, unless a column is
      named `id`, whose last value then replaces it (IdOfLast). */
  function IdOf(headers: seq<string>, values: seq<string>, stamp: nat): (id: RowId)
    ensures "id" !in headers ==> id == Stamp(stamp)
  {
    if |headers| == 0 then Stamp(stamp)
    else
      var n := |headers| - 1;
      assert headers == headers[..n] + [headers[n]];
      if headers[n] == "id" then Named(ValueAt(values, n))
      else IdOf(headers[..n], values, stamp)
  }

  /** A column named `id` replaces the stamp with the value at its last position. */
  lemma {:induction false} IdOfLast(headers: seq<string>, values: seq<string>, stamp: nat, i: nat)
    requires LastOccurrence(headers, i) && headers[i] == "id"
    ensures IdOf(headers, values, stamp) == Named(ValueAt(values, i))
  {
    var n := |headers| - 1;
    if i < n {
      var front := headers[..n];
      assert front[i] == headers[i];
      assert LastOccurrence(front, i);
      IdOfLast(front, values, stamp, i);
    }
  }

  /** The object `{ id: stamp }` after `headers.forEach((header, i) => row[header] = values[i] || '')`. */
  function MakeRow(headers: seq<string>, values: seq<string>, stamp: nat): (r: Row)
    ensures r.fields.Keys == FieldKeys(headers)
    ensures "id" !in headers ==> r.id == Stamp(stamp)
  {
    Row(IdOf(headers, values, stamp), BuildFields(headers, values))
  }

  /** `Object.keys(row).some(key => key !== 'id' && row[key] !== '')`: some
      cell holds a non-empty string. */
  predicate HasData(row: Row) {
    exists k :: k in row.fields && k != "id" && row.fields[k] != ""
  }

  /** No identifier occurs twice. */
  predicate DistinctIds(rows: seq<Row>) {
    forall i, j :: 0 <= i < j < |rows| ==> rows[i].id != rows[j].id
  }
}
