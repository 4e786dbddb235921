/**
  The campus filter of the settings modal: the column that holds the campus,
  the sorted list of distinct campus values offered as checkboxes (the
  facet), and the list of campuses the user has ticked, which is pruned
  whenever the table changes and toggled one value at a time.
*/
module Campus {
  import opened Wrappers
  import opened Text
  import opened Rows
  import opened Sorting

  /** A column whose lower-cased name mentions `campus`, `unidade` or `local`. */
  predicate IsCampusHeader(h: string) {
    var l := ToLower(h);
    Contains(l, "campus") || Contains(l, "unidade") || Contains(l, "local")
  }

  /** The `id` column is never taken for the campus column, so reading the
      campus column of a row is reading one of its cells. */
  lemma IdIsNotCampus()
    ensures !IsCampusHeader("id")
  {
    assert ToLower("id") == "id";
  }

  /** The position `headers.find(...)` stops at: the first campus column. */
  function FirstCampus(headers: seq<string>): (r: Option<nat>)
    ensures r.None? <==> forall k :: 0 <= k < |headers| ==> !IsCampusHeader(headers[k])
    ensures r.Some? ==> r.value < |headers| && IsCampusHeader(headers[r.value])
    ensures r.Some? ==> forall k :: 0 <= k < r.value ==> !IsCampusHeader(headers[k])
  {
    if |headers| == 0 then None
    else if IsCampusHeader(headers[0]) then Some(0)
    else
      match FirstCampus(headers[1..])
      case None => None
      case Some(i) => Some(i + 1)
  }

  /** The name of the first campus column, if any. */
  function CampusColumn(headers: seq<string>): (r: Option<string>)
    ensures r.None? <==> FirstCampus(headers).None?
    ensures r.Some? ==> r.value == headers[FirstCampus(headers).value] && r.value != "id"
  {
    match FirstCampus(headers)
    case None => None
    case Some(i) => IdIsNotCampus(); Some(headers[i])
  }

  /** The trimmed value of `column` in every row, in row order. */
  function TrimmedColumn(column: string, rows: seq<Row>): (r: seq<string>)
    ensures |r| == |rows|
    ensures forall k :: 0 <= k < |rows| ==> r[k] == Trim(Cell(rows[k], column))
  {
    if |rows| == 0 then []
    else [Trim(Cell(rows[0], column))] + TrimmedColumn(column, rows[1..])
  }

  /** `data.map(row => row[column]).filter(c => c && String(c).trim() !== '').map(c => String(c).trim())`:
      the trimmed non-blank values of the column, in row order. */
  function CampusValues(column: string, rows: seq<Row>): seq<string> {
    if |rows| == 0 then []
    else
      var v := Trim(Cell(rows[0], column));
      if v != "" then [v] + CampusValues(column, rows[1..]) else CampusValues(column, rows[1..])
  }

  /** A value is listed exactly when it is not empty and some row holds it,
      once trimmed. */
  lemma {:induction false} CampusValuesMembers(column: string, rows: seq<Row>, x: string)
    ensures x in CampusValues(column, rows) <==> x != "" && x in TrimmedColumn(column, rows)
  {
    if |rows| > 0 {
      var v, values, later := Trim(Cell(rows[0], column)), TrimmedColumn(column, rows), TrimmedColumn(column, rows[1..]);
      CampusValuesMembers(column, rows[1..], x);
      assert values == [v] + later;
      assert x in values <==> x == v || x in later;
    }
  }

  /** `extractAvailableCampuses`: the distinct values of the campus column,
      ascending; nothing when no column is a campus column. */
  function Facet(headers: seq<string>, rows: seq<Row>): seq<string> {
    match CampusColumn(headers)
    case None => []
    case Some(column) => SortUnique(CampusValues(column, rows))
  }

  /** The facet is ascending without repeats; it is empty without a campus
      column and otherwise lists exactly the values of that column. */
  lemma {:induction false} FacetShape(headers: seq<string>, rows: seq<Row>)
    ensures StrictlySorted(Facet(headers, rows)) && NoDuplicates(Facet(headers, rows))
    ensures CampusColumn(headers).None? ==> Facet(headers, rows) == []
    ensures CampusColumn(headers).Some? ==>
              forall x :: x in Facet(headers, rows) <==> x in CampusValues(CampusColumn(headers).value, rows)
  {
  }

  /** The facet offers exactly the values some row holds in the first
      campus column, once trimmed, other than the empty one. */
  lemma {:induction false} FacetMembers(headers: seq<string>, rows: seq<Row>, x: string)
    requires CampusColumn(headers).Some?
    ensures x in Facet(headers, rows) <==>
              x != "" && exists k :: 0 <= k < |rows| && Trim(Cell(rows[k], CampusColumn(headers).value)) == x
  {
    var values := TrimmedColumn(CampusColumn(headers).value, rows);
    CampusValuesMembers(CampusColumn(headers).value, rows, x);
    if x in values {
      var k :| 0 <= k < |rows| && values[k] == x;
    }
  }

  /** No value in the facet is blank or has whitespace around it. */
  lemma {:induction false} FacetTrimmed(headers: seq<string>, rows: seq<Row>, x: string)
    requires x in Facet(headers, rows)
    ensures !IsBlank(x) && Trim(x) == x
  {
    var column := CampusColumn(headers).value;
    var values := TrimmedColumn(column, rows);
    CampusValuesMembers(column, rows, x);
    var k :| 0 <= k < |rows| && values[k] == x;
    TrimIdempotent(Cell(rows[k], column));
  }

  /** The facet is the only strictly sorted list of those values: any other
      ascending, duplicate-free listing of them is the facet itself. */
  lemma {:induction false} FacetIsCanonical(headers: seq<string>, rows: seq<Row>, listing: seq<string>)
    requires CampusColumn(headers).Some?
    requires StrictlySorted(listing)
    requires forall x :: x in listing <==> x in CampusValues(CampusColumn(headers).value, rows)
    ensures listing == Facet(headers, rows)
  {
    SortedUnique(listing, Facet(headers, rows));
  }

  // ------------------------------------------------------------------
  // the selection

  /** `prev.filter(campus => campuses.includes(campus))`: the selections still
      offered, in their previous order. */
  function Prune(prior: seq<string>, facet: seq<string>): (r: seq<string>)
    ensures forall x :: x in r <==> x in prior && x in facet
    ensures IsSubsequence(r, prior)
  {
    if |prior| == 0 then []
    else
      var rest := Prune(prior[1..], facet);
      assert forall x :: x in prior <==> x == prior[0] || x in prior[1..];
      if prior[0] in facet then [prior[0]] + rest else rest
  }

  /** Pruning works campus by campus: it keeps each still-offered campus of
      the selection, in order and with its repeats. */
  lemma {:induction false} PruneConcat(a: seq<string>, b: seq<string>, facet: seq<string>)
    ensures Prune(a + b, facet) == Prune(a, facet) + Prune(b, facet)
  {
    if |a| > 0 {
      assert (a + b)[0] == a[0];
      assert (a + b)[1..] == a[1..] + b;
      PruneConcat(a[1..], b, facet);
    } else {
      assert a + b == b;
    }
  }

  /** A selection whose every campus is still offered is kept whole. */
  lemma {:induction false} PruneKeepsOffered(prior: seq<string>, facet: seq<string>)
    requires forall k :: 0 <= k < |prior| ==> prior[k] in facet
    ensures Prune(prior, facet) == prior
  {
    if |prior| > 0 {
      PruneKeepsOffered(prior[1..], facet);
      assert [prior[0]] + prior[1..] == prior;
    }
  }

  /** `a` is `b` with some elements left out. */
  predicate IsSubsequence<T(==)>(a: seq<T>, b: seq<T>) {
    if |a| == 0 then true
    else if |b| == 0 then false
    else if a[0] == b[0] then IsSubsequence(a[1..], b[1..])
    else IsSubsequence(a, b[1..])
  }

  /** Pruning twice against the same facet is pruning once. */
  lemma {:induction false} PruneIdempotent(prior: seq<string>, facet: seq<string>)
    ensures Prune(Prune(prior, facet), facet) == Prune(prior, facet)
  {
    var r := Prune(prior, facet);
    assert forall k :: 0 <= k < |r| ==> r[k] in r;
    PruneKeepsOffered(r, facet);
  }

  /** A subsequence of a list without repeated strings has none either. */
  lemma {:induction false} SubsequenceNoDuplicates(a: seq<string>, b: seq<string>)
    requires IsSubsequence(a, b) && NoDuplicates(b)
    ensures NoDuplicates(a)
  {
    if |a| > 0 && |b| > 0 {
      assert NoDuplicates(b[1..]) by {
        forall i, j | 0 <= i < j < |b[1..]|
          ensures b[1..][i] != b[1..][j]
        {
          assert b[i + 1] != b[j + 1];
        }
      }
      if a[0] == b[0] {
        SubsequenceNoDuplicates(a[1..], b[1..]);
        SubsequenceMembers(a[1..], b[1..]);
        forall i, j | 0 <= i < j < |a|
          ensures a[i] != a[j]
        {
          if i == 0 {
            assert a[j] == a[1..][j - 1];
            assert a[j] in b[1..];
            var m :| 0 <= m < |b[1..]| && b[1..][m] == a[j];
            assert b[m + 1] != b[0];
          } else {
            assert a[1..][i - 1] != a[1..][j - 1];
          }
        }
      } else {
        SubsequenceNoDuplicates(a, b[1..]);
      }
    }
  }

  /** Every list is a subsequence of itself. */
  lemma {:induction false} SubsequenceReflexive<T>(a: seq<T>)
    ensures IsSubsequence(a, a)
  {
    if |a| > 0 {
      SubsequenceReflexive(a[1..]);
    }
  }

  /** Every element of a subsequence is an element of the longer list. */
  lemma {:induction false} SubsequenceMembers<T>(a: seq<T>, b: seq<T>)
    requires IsSubsequence(a, b)
    ensures forall x :: x in a ==> x in b
  {
    if |a| > 0 && |b| > 0 {
      if a[0] == b[0] {
        SubsequenceMembers(a[1..], b[1..]);
        assert forall x :: x in a ==> x == a[0] || x in a[1..];
      } else {
        SubsequenceMembers(a, b[1..]);
      }
    }
  }

  /** `prev.filter(c => c !== campus)`: the selection without `campus`. */
  function Drop(selection: seq<string>, campus: string): (r: seq<string>)
    ensures forall x :: x in r <==> x in selection && x != campus
    ensures IsSubsequence(r, selection)
    ensures campus !in selection ==> r == selection
  {
    if |selection| == 0 then []
    else
      var rest := Drop(selection[1..], campus);
      assert forall x :: x in selection <==> x == selection[0] || x in selection[1..];
      if selection[0] != campus then [selection[0]] + rest else rest
  }

  /** Dropping works campus by campus: every other campus is kept, in order
      and with its repeats. */
  lemma {:induction false} DropConcat(a: seq<string>, b: seq<string>, campus: string)
    ensures Drop(a + b, campus) == Drop(a, campus) + Drop(b, campus)
  {
    if |a| > 0 {
      assert (a + b)[0] == a[0];
      assert (a + b)[1..] == a[1..] + b;
      DropConcat(a[1..], b, campus);
    } else {
      assert a + b == b;
    }
  }

  /** `handleToggleCampus`: a selected campus is removed (every copy of it),
      an unselected one is appended. */
  function Toggled(selection: seq<string>, campus: string): seq<string> {
    if campus in selection then Drop(selection, campus) else selection + [campus]
  }

  /** Toggling flips whether `campus` is selected and leaves every other
      campus as it was. */
  lemma {:induction false} ToggleFlips(selection: seq<string>, campus: string)
    ensures campus in Toggled(selection, campus) <==> campus !in selection
    ensures forall x :: x != campus ==> (x in Toggled(selection, campus) <==> x in selection)
  {
  }

  /** Toggling a campus that is not selected appends it at the end; toggling
      it again gives back the selection. */
  lemma {:induction false} ToggleTwice(selection: seq<string>, campus: string)
    requires campus !in selection
    ensures Toggled(selection, campus) == selection + [campus]
    ensures Toggled(Toggled(selection, campus), campus) == selection
  {
    var s := selection + [campus];
    assert campus in s;
    var d := Drop(s, campus);
    DropLast(selection, campus);
  }

  /** Dropping a campus appended to a selection that lacks it gives back the selection. */
  lemma {:induction false} DropLast(selection: seq<string>, campus: string)
    requires campus !in selection
    ensures Drop(selection + [campus], campus) == selection
  {
    if |selection| == 0 {
      assert [] + [campus] == [campus];
    } else {
      assert (selection + [campus])[1..] == selection[1..] + [campus];
      DropLast(selection[1..], campus);
      assert [selection[0]] + selection[1..] == selection;
    }
  }

  /** Toggling never introduces a repeated campus. */
  lemma {:induction false} ToggleNoDuplicates(selection: seq<string>, campus: string)
    requires NoDuplicates(selection)
    ensures NoDuplicates(Toggled(selection, campus))
  {
    if campus in selection {
      SubsequenceNoDuplicates(Drop(selection, campus), selection);
    } else {
      var s := selection + [campus];
      forall i, j | 0 <= i < j < |s|
        ensures s[i] != s[j]
      {
        if j == |selection| {
          assert s[i] == selection[i];
        }
      }
    }
  }
}
