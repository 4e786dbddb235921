/**
  The two checks the settings modal applies before it accepts input: every
  data column of the row being edited must be filled, and the "maximum
  semester" must have the form `YYYY.1` or `YYYY.2`.
*/
module Validation {
  import opened Text
  import opened Rows

  /** The set of column names `validateRowData` flags for `row`. The modal's
      error object maps each such name to `true`, so the set of its keys is
      the whole of it. */
  function MissingFields(headers: seq<string>, row: Row): set<string> {
    if |headers| == 0 then {}
    else
      var h := headers[0];
      var rest := MissingFields(headers[1..], row);
      if h != "id" && Trim(Cell(row, h)) == "" then {h} + rest else rest
  }

  /** The flagged columns are exactly the columns other than `id` whose value
      is missing or blank after trimming. */
  lemma {:induction false} MissingFieldsExact(headers: seq<string>, row: Row)
    ensures forall h :: h in MissingFields(headers, row) ==> h in headers && h != "id" && IsBlank(Cell(row, h))
    ensures forall k :: 0 <= k < |headers| && headers[k] != "id" && IsBlank(Cell(row, headers[k])) ==>
              headers[k] in MissingFields(headers, row)
  {
    MissingFieldsSound(headers, row);
    forall k | 0 <= k < |headers| && headers[k] != "id" && IsBlank(Cell(row, headers[k]))
      ensures headers[k] in MissingFields(headers, row)
    {
      MissingFieldsComplete(headers, row, k);
    }
  }

  /** Every flagged column is a data column whose cell is blank. */
  lemma {:induction false} MissingFieldsSound(headers: seq<string>, row: Row)
    ensures forall h :: h in MissingFields(headers, row) ==> h in headers && h != "id" && IsBlank(Cell(row, h))
  {
    if |headers| > 0 {
      var h0, rest := headers[0], MissingFields(headers[1..], row);
      MissingFieldsSound(headers[1..], row);
      assert headers == [h0] + headers[1..];
      if h0 != "id" && Trim(Cell(row, h0)) == "" {
        assert IsBlank(Cell(row, h0));
        assert MissingFields(headers, row) == {h0} + rest;
      } else {
        assert MissingFields(headers, row) == rest;
      }
    }
  }

  /** A data column whose cell is blank is flagged. */
  lemma {:induction false} MissingFieldsComplete(headers: seq<string>, row: Row, k: nat)
    requires k < |headers| && headers[k] != "id" && IsBlank(Cell(row, headers[k]))
    ensures headers[k] in MissingFields(headers, row)
  {
    if k > 0 {
      assert headers[k] == headers[1..][k - 1];
      MissingFieldsComplete(headers[1..], row, k - 1);
    }
  }

  /** A column is flagged exactly when its cell is blank. */
  lemma {:induction false} FlaggedIffBlank(headers: seq<string>, row: Row, k: nat)
    requires k < |headers| && headers[k] != "id"
    ensures headers[k] in MissingFields(headers, row) <==> IsBlank(Cell(row, headers[k]))
  {
    MissingFieldsExact(headers, row);
    assert headers[k] in headers;
  }

  /** A row passes validation exactly when each of its data columns holds a
      non-blank value. */
  lemma {:induction false} MissingFieldsEmpty(headers: seq<string>, row: Row)
    ensures MissingFields(headers, row) == {} <==>
              forall k :: 0 <= k < |headers| && headers[k] != "id" ==> !IsBlank(Cell(row, headers[k]))
  {
    var r := MissingFields(headers, row);
    MissingFieldsExact(headers, row);
    if r == {} {
      forall k | 0 <= k < |headers| && headers[k] != "id"
        ensures !IsBlank(Cell(row, headers[k]))
      {
        FlaggedIffBlank(headers, row, k);
      }
    } else {
      var h :| h in r;
      assert h in headers;
      var k :| 0 <= k < |headers| && headers[k] == h;
      FlaggedIffBlank(headers, row, k);
    }
  }

  // ------------------------------------------------------------------
  // the semester pattern

  /** One position of an anchored regular expression without repetition. */
  datatype CharClass = Digit | Literal(c: char) | AnyOf(cs: string)

  /** `\d` (ASCII digits only in JavaScript), a literal, or a bracket class. */
  predicate ClassMatches(k: CharClass, c: char) {
    match k
    case Digit => '0' <= c <= '9'
    case Literal(l) => c == l
    case AnyOf(cs) => c in cs
  }

  /** `^p$` matches `s`: one character of `s` per class of `p`, in order. */
  predicate Matches(p: seq<CharClass>, s: string) {
    if |p| == 0 then |s| == 0
    else |s| > 0 && ClassMatches(p[0], s[0]) && Matches(p[1..], s[1..])
  }

  /** `/^\d{4}\.[12]$/` with the repetition written out. */
  const SemesterPattern: seq<CharClass> := [Digit, Digit, Digit, Digit, Literal('.'), AnyOf("12")]

  /** `validateSemester`: the trimmed text matches the semester pattern. */
  predicate IsValidSemester(semester: string) {
    Matches(SemesterPattern, Trim(semester))
  }

  /** An anchored pattern matches exactly the strings of its own length whose
      every character is in the class at its position. */
  lemma {:induction false} MatchesPointwise(p: seq<CharClass>, s: string)
    ensures Matches(p, s) <==> |s| == |p| && forall i :: 0 <= i < |p| ==> ClassMatches(p[i], s[i])
  {
    if |p| > 0 && |s| > 0 {
      MatchesPointwise(p[1..], s[1..]);
      if ClassMatches(p[0], s[0]) && Matches(p[1..], s[1..]) {
        forall i | 0 <= i < |p|
          ensures ClassMatches(p[i], s[i])
        {
          if i > 0 {
            assert p[1..][i - 1] == p[i] && s[1..][i - 1] == s[i];
          }
        }
      }
      if |s| == |p| && forall i :: 0 <= i < |p| ==> ClassMatches(p[i], s[i]) {
        forall i | 0 <= i < |p| - 1
          ensures ClassMatches(p[1..][i], s[1..][i])
        {
          assert ClassMatches(p[i + 1], s[i + 1]);
        }
      }
    }
  }

  /** The semester check spelled out: after trimming, four ASCII digits, a
      dot, then `1` or `2`. */
  predicate SemesterShape(t: string) {
    |t| == 6
    && (forall i :: 0 <= i < 4 ==> '0' <= t[i] <= '9')
    && t[4] == '.'
    && (t[5] == '1' || t[5] == '2')
  }

  /** The pattern matches exactly the strings of the semester shape. */
  lemma {:induction false} PatternIsShape(t: string)
    ensures Matches(SemesterPattern, t) <==> SemesterShape(t)
  {
    MatchesPointwise(SemesterPattern, t);
    if SemesterShape(t) {
      forall i | 0 <= i < 6
        ensures ClassMatches(SemesterPattern[i], t[i])
      {
        if i < 4 {
          assert '0' <= t[i] <= '9';
        }
      }
    }
    if Matches(SemesterPattern, t) {
      assert ClassMatches(SemesterPattern[5], t[5]);
      assert ClassMatches(SemesterPattern[4], t[4]);
      forall i | 0 <= i < 4
        ensures '0' <= t[i] <= '9'
      {
        assert ClassMatches(SemesterPattern[i], t[i]);
      }
    }
  }

  lemma {:induction false} SemesterValidIff(semester: string)
    ensures IsValidSemester(semester) <==> SemesterShape(Trim(semester))
  {
    PatternIsShape(Trim(semester));
  }

  /** Surrounding whitespace does not matter, since the check trims first. */
  lemma {:induction false} SemesterIgnoresPadding(w1: string, semester: string, w2: string)
    requires IsBlank(w1) && IsBlank(w2)
    ensures IsValidSemester(w1 + semester + w2) <==> IsValidSemester(semester)
  {
    TrimPadded(w1, semester, w2);
  }

  /** A string of the semester shape with nothing around it passes. */
  lemma {:induction false} ShapedIsValid(t: string)
    requires SemesterShape(t)
    ensures IsValidSemester(t)
  {
    assert !IsWhitespace(t[0]) && !IsWhitespace(t[5]);
    SemesterValidIff(t);
  }

  /** The initial value `2019.1` passes. */
  lemma InitialSemesterValid()
    ensures IsValidSemester("2019.1")
  {
    var t := "2019.1";
    assert SemesterShape(t) by {
      assert t[0] == '2' && t[1] == '0' && t[2] == '1' && t[3] == '9';
    }
    ShapedIsValid(t);
  }

  /** Without whitespace at either end, the check is the shape itself. */
  lemma {:induction false} UnpaddedValidIff(t: string)
    requires |t| > 0 && !IsWhitespace(t[0]) && !IsWhitespace(t[|t| - 1])
    ensures IsValidSemester(t) <==> SemesterShape(t)
  {
    TrimUnpadded(t);
    SemesterValidIff(t);
  }

  /** A two-digit year, a third semester, a dash and the empty text fail. */
  lemma InvalidSemesters()
    ensures !IsValidSemester("19.1")
    ensures !IsValidSemester("2019.3")
    ensures !IsValidSemester("2019-1")
    ensures !IsValidSemester("")
  {
    ShortYearInvalid();
    ThirdSemesterInvalid();
    DashInvalid();
    SemesterValidIff("");
  }

  lemma ShortYearInvalid()
    ensures !IsValidSemester("19.1")
  {
    var a := "19.1";
    assert !IsWhitespace(a[0]) && !IsWhitespace(a[3]);
    UnpaddedValidIff(a);
  }

  lemma ThirdSemesterInvalid()
    ensures !IsValidSemester("2019.3")
  {
    var b := "2019.3";
    assert !IsWhitespace(b[0]) && !IsWhitespace(b[5]) && b[5] == '3';
    UnpaddedValidIff(b);
  }

  lemma DashInvalid()
    ensures !IsValidSemester("2019-1")
  {
    var c := "2019-1";
    assert !IsWhitespace(c[0]) && !IsWhitespace(c[5]) && c[4] == '-';
    UnpaddedValidIff(c);
  }
}
