/**
 * Turning the rows of an uploaded file into student records
 * (upload_results in app.py): each row becomes one record whose subjects come
 * from the `<Subject>_Marks` columns and, optionally, from a JSON list in a
 * `subjects` column; records without a student id are then dropped.
 */
module Ingest {
  import opened Optional
  import opened Text
  import opened Table

  /** A decoded JSON document, as json.loads returns it. */
  datatype Json =
    | JNull
    | JBool(b: bool)
    | JNumber(n: real)
    | JString(s: string)
    | JArray(items: seq<Json>)
    | JObject(members: seq<(string, Json)>)

  /**
   * One entry of a record's subject list: either built from a `_Marks` column
   * ({"name": ..., "marks": ...}) or an item copied from the `subjects` cell.
   */
  datatype Subject = Marks(name: string, marks: Value) | Parsed(entry: Json)

  /** The record stored per student; sgpa and cgpa are kept as the cells were. */
  datatype StudentRecord = StudentRecord(
    studentId: string,
    name: Value,
    academicYear: Value,
    sgpa: Value,
    cgpa: Value,
    subjects: seq<Subject>)

  const MarksTag := "_Marks"
  const SubjectsColumn := "subjects"

  /**
   * [col.replace('_Marks', '') for col in row if '_Marks' in col]: one name per
   * column that mentions the tag, in column order.
   */
  function SubjectNames(row: Row): (names: seq<string>)
    ensures |names| <= |row|
  {
    if row == [] then []
    else (if Contains(row[0].0, MarksTag) then [RemoveAll(row[0].0, MarksTag)] else []) + SubjectNames(row[1..])
  }

  /** The subject the loop appends for one name: only when `<name>_Marks` is present and not None. */
  function MarksEntry(row: Row, name: string): seq<Subject> {
    match Get(row, name + MarksTag)
    case Some(v) => if v != Null then [Marks(name, v)] else []
    case None => []
  }

  /** The subjects the loop over `names` appends, one name after the other. */
  function MarksEntries(row: Row, names: seq<string>): seq<Subject> {
    if names == [] then []
    else MarksEntries(row, names[..|names| - 1]) + MarksEntry(row, names[|names| - 1])
  }

  /**
   * Each subject of MarksEntries is a `Marks` entry for a listed name whose
   * `_Marks` cell holds that value and is not None, and every listed name with
   * such a cell gets its entry.
   */
  lemma {:induction false} MarksEntriesSpec(row: Row, names: seq<string>)
    ensures forall s :: s in MarksEntries(row, names) ==>
      s.Marks? && s.name in names && s.marks != Null && Get(row, s.name + MarksTag) == Some(s.marks)
    ensures forall n, v :: n in names && Get(row, n + MarksTag) == Some(v) && v != Null ==>
      Marks(n, v) in MarksEntries(row, names)
  {
    if names != [] {
      var front := names[..|names| - 1];
      var last := names[|names| - 1];
      MarksEntriesSpec(row, front);
      assert names == front + [last];
      var r := MarksEntries(row, names);
      assert r == MarksEntries(row, front) + MarksEntry(row, last);
      forall s | s in r
        ensures s.Marks? && s.name in names && s.marks != Null && Get(row, s.name + MarksTag) == Some(s.marks)
      {
        if s !in MarksEntries(row, front) {
          assert s in MarksEntry(row, last);
        }
      }
    }
  }

  /**
   * The loop appends in the order of the names: the entries for x + y are
   * those for x followed by those for y.
   */
  lemma {:induction false} MarksEntriesAppend(row: Row, x: seq<string>, y: seq<string>)
    ensures MarksEntries(row, x + y) == MarksEntries(row, x) + MarksEntries(row, y)
  {
    if y == [] {
      assert x + y == x;
    } else {
      assert (x + y)[..|x + y| - 1] == x + y[..|y| - 1];
      MarksEntriesAppend(row, x, y[..|y| - 1]);
    }
  }

  /** For a single name the loop appends at most one entry: `Marks(n, v)` when `<n>_Marks` holds a `v` other than None. */
  lemma MarksEntriesOfOne(row: Row, n: string)
    ensures MarksEntries(row, [n]) ==
      if Get(row, n + MarksTag).Some? && Get(row, n + MarksTag).value != Null
      then [Marks(n, Get(row, n + MarksTag).value)] else []
  {
    assert [n][..0] == [];
  }

  /** Each decoded item, in order, as a subject entry. */
  function Wrapped(items: seq<Json>): seq<Subject> {
    seq(|items|, k requires 0 <= k < |items| => Parsed(items[k]))
  }

  /**
   * The items added from the `subjects` cell: only when the cell is a string
   * that decodes to a JSON list; a non-string cell, a decode error (decode
   * returns None) or any other JSON value adds nothing.
   */
  function ParsedEntries(row: Row, decode: string -> Option<Json>): seq<Subject> {
    match Get(row, SubjectsColumn)
    case Some(Str(text)) =>
      (match decode(text)
       case Some(JArray(items)) => Wrapped(items)
       case _ => [])
    case _ => []
  }

  /** The `student_data` dict of a row: its five scalar fields with their defaults, and the given subject list. */
  function RecordOf(row: Row, numText: real -> string, subjects: seq<Subject>): StudentRecord {
    StudentRecord(
      Strip(Render(GetOr(row, "studentId", Str("")), numText)),
      GetOr(row, "name", Str("")),
      GetOr(row, "academicYear", Str("")),
      GetOr(row, "sgpa", Num(0.0)),
      GetOr(row, "cgpa", Num(0.0)),
      subjects)
  }

  /** The record one row becomes (the body of `for row in temp_results`). */
  function Normalised(row: Row, numText: real -> string, decode: string -> Option<Json>): StudentRecord {
    RecordOf(row, numText, MarksEntries(row, SubjectNames(row)) + ParsedEntries(row, decode))
  }

  /**
   * Builds one row's record the way the handler does: appends a subject per
   * `_Marks` name whose cell is not None, then extends with the decoded list.
   */
  method NormaliseRow(row: Row, numText: real -> string, decode: string -> Option<Json>)
    returns (record: StudentRecord)
    ensures record == Normalised(row, numText, decode)
  {
    var names := SubjectNames(row);
    var subjects: seq<Subject> := [];
    var i := 0;
    while i < |names|
      invariant 0 <= i <= |names|
      invariant subjects == MarksEntries(row, names[..i])
    {
      var marks := Get(row, names[i] + MarksTag);
      if marks.Some? && marks.value != Null {
        subjects := subjects + [Marks(names[i], marks.value)];
      }
      assert names[..i + 1][..i] == names[..i];
      i := i + 1;
    }
    assert names[..i] == names;
    var cell := Get(row, SubjectsColumn);
    if cell.Some? && cell.value.Str? {
      var parsed := decode(cell.value.text);
      if parsed.Some? && parsed.value.JArray? {
        subjects := subjects + Wrapped(parsed.value.items);
      }
    }
    assert subjects == MarksEntries(row, names) + ParsedEntries(row, decode);
    record := RecordOf(row, numText, subjects);
  }

  /** Normalises every row of the file, one record per row, in row order. */
  method NormaliseAll(rows: seq<Row>, numText: real -> string, decode: string -> Option<Json>)
    returns (records: seq<StudentRecord>)
    ensures |records| == |rows|
    ensures forall k :: 0 <= k < |rows| ==> records[k] == Normalised(rows[k], numText, decode)
  {
    records := [];
    var i := 0;
    while i < |rows|
      invariant 0 <= i <= |rows|
      invariant |records| == i
      invariant forall k :: 0 <= k < i ==> records[k] == Normalised(rows[k], numText, decode)
    {
      var record := NormaliseRow(rows[i], numText, decode);
      records := records + [record];
      i := i + 1;
    }
  }

  /**
   * [d for d in records if d.get('studentId')]: every kept record has a
   * non-empty id, and each record with a non-empty id is kept as often as it
   * occurs while the others are dropped.
   */
  function Identified(records: seq<StudentRecord>): (kept: seq<StudentRecord>)
    ensures forall k :: 0 <= k < |kept| ==> kept[k].studentId != ""
  {
    if records == [] then []
    else (if records[0].studentId != "" then [records[0]] else []) + Identified(records[1..])
  }

  /**
   * Each record with a non-empty id is kept as often as it occurs and every
   * other record is dropped.
   */
  lemma {:induction false} IdentifiedCounts(records: seq<StudentRecord>, d: StudentRecord)
    ensures multiset(Identified(records))[d] == if d.studentId != "" then multiset(records)[d] else 0
  {
    if records != [] {
      IdentifiedCounts(records[1..], d);
      assert records == [records[0]] + records[1..];
    }
  }

  /** The records one file contributes: its rows normalised, without the unidentified ones. */
  function Batch(rows: seq<Row>, numText: real -> string, decode: string -> Option<Json>): seq<StudentRecord> {
    Identified(seq(|rows|, k requires 0 <= k < |rows| => Normalised(rows[k], numText, decode)))
  }

  // Properties of the normalised record

  /**
   * The stored id is the cell's text with surrounding whitespace removed and
   * nothing else changed (letters keep their case); it never starts or ends
   * with whitespace, and a missing studentId column gives the empty id.
   */
  lemma StudentIdIsStripped(row: Row, numText: real -> string, decode: string -> Option<Json>)
    ensures var id := Normalised(row, numText, decode).studentId;
      id == [] || (!IsSpace(id[0]) && !IsSpace(id[|id| - 1]))
    ensures forall s :: Get(row, "studentId") == Some(Str(s)) ==>
      Normalised(row, numText, decode).studentId == Strip(s)
    ensures Get(row, "studentId").None? ==> Normalised(row, numText, decode).studentId == ""
    ensures Get(row, "studentId") == Some(Null) ==> Normalised(row, numText, decode).studentId == "None"
    ensures Get(row, "studentId").Some? && Get(row, "studentId").value.Num? ==>
      Normalised(row, numText, decode).studentId == Strip(numText(Get(row, "studentId").value.number))
  {
    StripSpec(Render(GetOr(row, "studentId", Str("")), numText));
  }

  /**
   * The other four fields are the row's cells as they are: `name` and
   * `academicYear` default to the empty string, `sgpa` and `cgpa` to 0.0, when
   * the column is missing; a cell that is present is kept even when it is None.
   */
  lemma RecordFields(row: Row, numText: real -> string, decode: string -> Option<Json>)
    ensures var r := Normalised(row, numText, decode);
      && (Get(row, "name").Some? ==> r.name == Get(row, "name").value)
      && (Get(row, "name").None? ==> r.name == Str(""))
      && (Get(row, "academicYear").Some? ==> r.academicYear == Get(row, "academicYear").value)
      && (Get(row, "academicYear").None? ==> r.academicYear == Str(""))
      && (Get(row, "sgpa").Some? ==> r.sgpa == Get(row, "sgpa").value)
      && (Get(row, "sgpa").None? ==> r.sgpa == Num(0.0))
      && (Get(row, "cgpa").Some? ==> r.cgpa == Get(row, "cgpa").value)
      && (Get(row, "cgpa").None? ==> r.cgpa == Num(0.0))
  {
  }

  /** For example, " 21cs07 " is stored as "21cs07": stripped but not upper-cased. */
  lemma StudentIdKeepsCase(numText: real -> string, decode: string -> Option<Json>)
    ensures Normalised([("studentId", Str(" 21cs07 "))], numText, decode).studentId == "21cs07"
  {
    var s := " 21cs07 ";
    assert TrimStart(s) == TrimStart(s[1..]);
    assert s[1..] == "21cs07 ";
    assert TrimStart("21cs07 ") == "21cs07 ";
    assert TrimEnd("21cs07 ") == TrimEnd("21cs07 "[..6]);
    assert "21cs07 "[..6] == "21cs07";
  }

  /** SubjectNames respects column order: the names of a + b are a's names followed by b's. */
  lemma {:induction false} SubjectNamesAppend(a: Row, b: Row)
    ensures SubjectNames(a + b) == SubjectNames(a) + SubjectNames(b)
  {
    if a == [] {
      assert a + b == b;
    } else {
      var head := if Contains(a[0].0, MarksTag) then [RemoveAll(a[0].0, MarksTag)] else [];
      assert (a + b)[0] == a[0] && (a + b)[1..] == a[1..] + b;
      SubjectNamesAppend(a[1..], b);
      calc {
        SubjectNames(a + b);
        head + SubjectNames(a[1..] + b);
        head + (SubjectNames(a[1..]) + SubjectNames(b));
        (head + SubjectNames(a[1..])) + SubjectNames(b);
      }
    }
  }

  /** A name is listed exactly when some column mentions `_Marks` and loses those occurrences to become it. */
  lemma {:induction false} SubjectNamesFromColumns(row: Row, n: string)
    ensures n in SubjectNames(row) <==>
      exists i :: 0 <= i < |row| && Contains(row[i].0, MarksTag) && RemoveAll(row[i].0, MarksTag) == n
  {
    if row != [] {
      SubjectNamesFromColumns(row[1..], n);
      if n in SubjectNames(row[1..]) {
        var i :| 0 <= i < |row[1..]| && Contains(row[1..][i].0, MarksTag) && RemoveAll(row[1..][i].0, MarksTag) == n;
        assert row[i + 1] == row[1..][i];
      }
      if exists i :: 0 <= i < |row| && Contains(row[i].0, MarksTag) && RemoveAll(row[i].0, MarksTag) == n {
        var i :| 0 <= i < |row| && Contains(row[i].0, MarksTag) && RemoveAll(row[i].0, MarksTag) == n;
        if i > 0 {
          assert row[1..][i - 1] == row[i];
        }
      }
    }
  }

  /**
   * Every subject built from the `_Marks` columns names a column of the row
   * that mentions `_Marks`, and its marks are the non-None cell of
   * `<name>_Marks`.
   */
  lemma MarksSubjectsTraceToColumns(row: Row, numText: real -> string, decode: string -> Option<Json>, k: nat)
    requires k < |Normalised(row, numText, decode).subjects|
    requires Normalised(row, numText, decode).subjects[k].Marks?
    ensures var s := Normalised(row, numText, decode).subjects[k];
      && s.marks != Null
      && Get(row, s.name + MarksTag) == Some(s.marks)
      && exists i :: 0 <= i < |row| && Contains(row[i].0, MarksTag) && RemoveAll(row[i].0, MarksTag) == s.name
  {
    var fromMarks := MarksEntries(row, SubjectNames(row));
    var subjects := Normalised(row, numText, decode).subjects;
    assert subjects == fromMarks + ParsedEntries(row, decode);
    ParsedAreParsed(row, decode);
    MarksEntriesSpec(row, SubjectNames(row));
    assert subjects[k] == fromMarks[k];
    assert fromMarks[k] in fromMarks;
    SubjectNamesFromColumns(row, subjects[k].name);
  }

  /**
   * Conversely, every column that mentions `_Marks` yields a subject whenever
   * the rebuilt column `<name>_Marks` holds a value other than None.
   */
  lemma MarksColumnsYieldSubjects(row: Row, numText: real -> string, decode: string -> Option<Json>, i: nat)
    requires i < |row| && Contains(row[i].0, MarksTag)
    requires var n := RemoveAll(row[i].0, MarksTag); Get(row, n + MarksTag).Some? && Get(row, n + MarksTag).value != Null
    ensures var n := RemoveAll(row[i].0, MarksTag);
      Marks(n, Get(row, n + MarksTag).value) in Normalised(row, numText, decode).subjects
  {
    var n := RemoveAll(row[i].0, MarksTag);
    SubjectNamesFromColumns(row, n);
    MarksEntriesSpec(row, SubjectNames(row));
    var fromMarks := MarksEntries(row, SubjectNames(row));
    assert Marks(n, Get(row, n + MarksTag).value) in fromMarks;
    assert Normalised(row, numText, decode).subjects == fromMarks + ParsedEntries(row, decode);
  }

  /**
   * Removing the tag from `n + "_Marks"` gives back `n` when `n` does not
   * mention the tag itself: no occurrence of `_Marks` can start inside `n`,
   * because `_` occurs in `_Marks` only at its start.
   */
  lemma {:induction false} RemoveTag(n: string)
    requires !Contains(n, MarksTag)
    ensures RemoveAll(n + MarksTag, MarksTag) == n
  {
    var s := n + MarksTag;
    if n == [] {
      assert s == MarksTag;
      assert s[..|MarksTag|] == MarksTag;
      assert s[|MarksTag|..] == [];
    } else {
      if |n| >= |MarksTag| {
        assert n[..|MarksTag|] == s[..|MarksTag|];
      } else {
        assert s[|n|] == '_';
      }
      assert !StartsWith(s, MarksTag);
      assert s[1..] == n[1..] + MarksTag;
      RemoveTag(n[1..]);
      assert n == [n[0]] + n[1..];
    }
  }

  /**
   * An ordinary subject column: a column `n + "_Marks"`, where `n` does not
   * itself mention `_Marks`, whose cell is a value other than None yields the
   * subject `n` with exactly that value.
   */
  lemma MarksColumnYieldsSubject(row: Row, numText: real -> string, decode: string -> Option<Json>, n: string, v: Value)
    requires !Contains(n, MarksTag)
    requires Get(row, n + MarksTag) == Some(v) && v != Null
    ensures Marks(n, v) in Normalised(row, numText, decode).subjects
  {
    GetSpec(row, n + MarksTag);
    var i :| 0 <= i < |row| && row[i] == (n + MarksTag, v);
    ContainsAppended(n, MarksTag);
    RemoveTag(n);
    MarksColumnsYieldSubjects(row, numText, decode, i);
  }

  /** Helper behind MarksBeforeParsed: every item taken from the `subjects` cell is a `Parsed` entry. */
  lemma ParsedAreParsed(row: Row, decode: string -> Option<Json>)
    ensures forall k :: 0 <= k < |ParsedEntries(row, decode)| ==> ParsedEntries(row, decode)[k].Parsed?
  {
  }

  /**
   * The `_Marks` subjects follow the column order: for a row split into
   * columns a and then b, the subjects of a's columns come before those of b's,
   * and the items from the `subjects` cell come last.
   */
  lemma MarksSubjectsInColumnOrder(row: Row, numText: real -> string, decode: string -> Option<Json>, a: Row, b: Row)
    requires row == a + b
    ensures Normalised(row, numText, decode).subjects ==
      MarksEntries(row, SubjectNames(a)) + MarksEntries(row, SubjectNames(b)) + ParsedEntries(row, decode)
  {
    SubjectNamesAppend(a, b);
    MarksEntriesAppend(row, SubjectNames(a), SubjectNames(b));
  }

  /**
   * `extend(parsed_subjects)`: when the `subjects` cell is a string that
   * decodes to a JSON list, every item of the list follows the `_Marks`
   * subjects, whole and in order.
   */
  lemma ParsedListAppended(row: Row, numText: real -> string, decode: string -> Option<Json>, text: string, items: seq<Json>)
    requires Get(row, SubjectsColumn) == Some(Str(text)) && decode(text) == Some(JArray(items))
    ensures Normalised(row, numText, decode).subjects == MarksEntries(row, SubjectNames(row)) + Wrapped(items)
  {
    ParsedEntriesOfList(row, decode, text, items);
  }

  /**
   * What `extend` adds: after any list of subjects, the wrapped items follow
   * whole and in order, item k right at position |front| + k.
   */
  lemma WrappedAfter(front: seq<Subject>, items: seq<Json>)
    ensures |front + Wrapped(items)| == |front| + |items|
    ensures forall k :: 0 <= k < |items| ==> (front + Wrapped(items))[|front| + k] == Parsed(items[k])
  {
  }

  /** The `subjects` cell holding a string that decodes to a list adds exactly that list's items. */
  lemma ParsedEntriesOfList(row: Row, decode: string -> Option<Json>, text: string, items: seq<Json>)
    requires Get(row, SubjectsColumn) == Some(Str(text)) && decode(text) == Some(JArray(items))
    ensures ParsedEntries(row, decode) == Wrapped(items)
  {
  }

  /** All subjects from the `_Marks` columns come before any item taken from the `subjects` cell. */
  lemma MarksBeforeParsed(row: Row, numText: real -> string, decode: string -> Option<Json>, i: nat, j: nat)
    requires i < j < |Normalised(row, numText, decode).subjects|
    requires Normalised(row, numText, decode).subjects[j].Marks?
    ensures Normalised(row, numText, decode).subjects[i].Marks?
  {
    var fromMarks := MarksEntries(row, SubjectNames(row));
    var subjects := Normalised(row, numText, decode).subjects;
    assert subjects == fromMarks + ParsedEntries(row, decode);
    ParsedAreParsed(row, decode);
    MarksEntriesSpec(row, SubjectNames(row));
    assert subjects[i] == fromMarks[i];
    assert fromMarks[i] in fromMarks;
  }

  /**
   * The subject list is exactly the `_Marks`-derived one unless the `subjects`
   * cell is a string that decodes to a non-empty JSON list: a non-string cell,
   * a malformed document or a decoded non-list leaves it as it is.
   */
  lemma {:induction false} MarksOnlyUnlessJsonList(row: Row, numText: real -> string, decode: string -> Option<Json>)
    ensures Normalised(row, numText, decode).subjects == MarksEntries(row, SubjectNames(row)) <==>
      !(exists text :: Get(row, SubjectsColumn) == Some(Str(text)) && decode(text).Some?
          && decode(text).value.JArray? && decode(text).value.items != [])
  {
    var fromMarks := MarksEntries(row, SubjectNames(row));
    assert Normalised(row, numText, decode).subjects == fromMarks + ParsedEntries(row, decode);
    if Normalised(row, numText, decode).subjects == fromMarks {
      assert |ParsedEntries(row, decode)| == 0;
    }
  }

  /**
   * Filtering keeps relative order: the kept records of a + b are those of a
   * followed by those of b.
   */
  lemma {:induction false} IdentifiedAppend(a: seq<StudentRecord>, b: seq<StudentRecord>)
    ensures Identified(a + b) == Identified(a) + Identified(b)
  {
    if a == [] {
      assert a + b == b;
    } else {
      var head := if a[0].studentId != "" then [a[0]] else [];
      assert (a + b)[0] == a[0] && (a + b)[1..] == a[1..] + b;
      IdentifiedAppend(a[1..], b);
      calc {
        Identified(a + b);
        head + Identified(a[1..] + b);
        head + (Identified(a[1..]) + Identified(b));
        (head + Identified(a[1..])) + Identified(b);
      }
    }
  }

  /** Filtering changes nothing exactly when every record already has an id. */
  lemma {:induction false} IdentifiedUnchangedIff(records: seq<StudentRecord>)
    ensures Identified(records) == records <==> forall k :: 0 <= k < |records| ==> records[k].studentId != ""
  {
    if records != [] {
      IdentifiedUnchangedIff(records[1..]);
      if records[0].studentId == "" {
        assert |Identified(records[1..])| <= |records[1..]| by {
          IdentifiedShorter(records[1..]);
        }
      }
    }
  }

  lemma {:induction false} IdentifiedShorter(records: seq<StudentRecord>)
    ensures |Identified(records)| <= |records|
  {
    if records != [] {
      IdentifiedShorter(records[1..]);
    }
  }
}
