/** The roster loaders of the absence report generator: the teacher table read
    through `csv.DictReader` and the plain-text list of substitutes. Reading the
    files is left to the caller; these functions see the rows and lines. */
module AbsenceRoster {
  import opened Results
  import opened Text
  import Seqs

  datatype Teacher = Teacher(name: string, department: string)

  /** One row as `csv.DictReader` yields it: column title to cell. A short row
      has its missing columns filled with `None`. */
  type Row = map<string, Option<string>>

  /** `None.strip()` raises AttributeError, which aborts the load. */
  datatype RosterError = StripOfNone(column: string)

  /** A row whose named cells, where present, are text. */
  predicate Readable(row: Row) {
    && ("Teacher" in row ==> row["Teacher"].Some?)
    && ("Department" in row ==> row["Department"].Some?)
  }

  /** `row.get(column, '')` for a readable row. */
  function CellText(row: Row, column: string): string
  {
    if column in row && row[column].Some? then row[column].value else ""
  }

  /** What a kept teacher looks like: a stripped name other than the header's,
      and a department that is never blank. */
  predicate RosterEntry(t: Teacher) {
    && t.name != "" && t.name != "Teacher" && Trimmed(t.name)
    && t.department != "" && Trimmed(t.department)
  }

  /** The rule applied to one row's stripped cells: rows with an empty name or a
      repeated header name are dropped, and a blank department becomes `General`. */
  function TeacherOf(name: string, department: string): (r: Option<Teacher>)
    requires Trimmed(name) && Trimmed(department)
    ensures r.Some? <==> name != "" && name != "Teacher"
    ensures r.Some? ==> RosterEntry(r.value) && r.value.name == name
    ensures r.Some? && department != "" ==> r.value.department == department
    ensures r.Some? && department == "" ==> r.value.department == "General"
  {
    if name != "" && name != "Teacher" then
      Some(Teacher(name, if department != "" then department else "General"))
    else None
  }

  /** One row of `load_teachers`: both cells are stripped before the rule is
      applied; a `None` cell raises. */
  function RowTeacher(row: Row): (r: Result<Option<Teacher>, RosterError>)
    ensures r.Failure? <==> !Readable(row)
    ensures r.Success? ==>
      r.value == TeacherOf(Strip(CellText(row, "Teacher")), Strip(CellText(row, "Department")))
  {
    if "Teacher" in row && row["Teacher"].None? then Failure(StripOfNone("Teacher"))
    else if "Department" in row && row["Department"].None? then Failure(StripOfNone("Department"))
    else
      var name, department := CellText(row, "Teacher"), CellText(row, "Department");
      Success(TeacherOf(Strip(name), Strip(department)))
  }

  /** `load_teachers`: every row through the row rule, in order; the first
      unreadable row aborts the whole load with that row's error. */
  function LoadTeachers(rows: seq<Row>): (r: Result<seq<Teacher>, RosterError>)
    ensures r.Success? <==> forall i :: 0 <= i < |rows| ==> Readable(rows[i])
    ensures r.Success? ==> |r.value| <= |rows|
    ensures r.Success? ==> forall k :: 0 <= k < |r.value| ==> RosterEntry(r.value[k])
  {
    Seqs.TryFilterMapAll(rows, RowTeacher, RosterEntry);
    Seqs.TryFilterMap(rows, RowTeacher)
  }

  /** One readable row loads to its own teacher, or to nothing when the row rule
      skips it; with `LoadTeachersConcat` this fixes the load of any readable
      roster row by row. */
  lemma LoadTeachersOne(row: Row)
    requires Readable(row)
    ensures LoadTeachers([row]) ==
      Success(if RowTeacher(row).value.Some? then [RowTeacher(row).value.value] else [])
  {
    Seqs.TryFilterMapOne(row, RowTeacher);
  }

  /** A failed load reports the first unreadable row. */
  lemma LoadTeachersError(rows: seq<Row>)
    requires LoadTeachers(rows).Failure?
    ensures exists i :: (0 <= i < |rows| && !Readable(rows[i]) &&
                         RowTeacher(rows[i]) == Failure(LoadTeachers(rows).error) &&
                         forall j :: 0 <= j < i ==> Readable(rows[j]))
  {
    Seqs.TryFilterMapFirstError(rows, RowTeacher);
  }

  /** The loader treats rows one at a time: loading two blocks of rows is loading
      each block and putting the teachers side by side. */
  lemma LoadTeachersConcat(a: seq<Row>, b: seq<Row>)
    requires LoadTeachers(a).Success? && LoadTeachers(b).Success?
    ensures LoadTeachers(a + b) == Success(LoadTeachers(a).value + LoadTeachers(b).value)
  {
    Seqs.TryFilterMapConcat(a, b, RowTeacher);
  }

  /** A substitute line worth keeping once stripped. */
  predicate IsSubLine(s: string) {
    s != "" && !StartsWith(s, "#") && !StartsWith(s, "---")
  }

  /** Every line with its surrounding whitespace removed. */
  function StripAll(lines: seq<string>): (r: seq<string>)
    ensures |r| == |lines|
    ensures forall i :: 0 <= i < |lines| ==> r[i] == Strip(lines[i]) && Trimmed(r[i])
  {
    if lines == [] then [] else [Strip(lines[0])] + StripAll(lines[1..])
  }

  /** `load_subs`: each line stripped; blank lines and lines starting with `#`
      or `---` are skipped; the rest are kept in file order. */
  function LoadSubs(lines: seq<string>): (r: seq<string>)
    ensures forall i :: 0 <= i < |r| ==> IsSubLine(r[i])
    ensures forall x :: multiset(r)[x] == if IsSubLine(x) then multiset(StripAll(lines))[x] else 0
    ensures Seqs.Sublist(r, StripAll(lines))
  {
    var stripped := StripAll(lines);
    Seqs.FilterSublist(stripped, IsSubLine);
    forall x ensures multiset(Seqs.Filter(stripped, IsSubLine))[x] ==
      if IsSubLine(x) then multiset(stripped)[x] else 0 {
      Seqs.FilterMultiset(stripped, IsSubLine, x);
    }
    Seqs.Filter(stripped, IsSubLine)
  }

  /** Every kept substitute is a stripped line, and every stripped line worth
      keeping is kept. */
  lemma LoadSubsLines(lines: seq<string>)
    ensures forall i :: 0 <= i < |LoadSubs(lines)| ==> Trimmed(LoadSubs(lines)[i])
    ensures forall i :: 0 <= i < |lines| && IsSubLine(Strip(lines[i])) ==> Strip(lines[i]) in LoadSubs(lines)
  {
    LoadSubsTrimmed(lines);
    LoadSubsKeeps(lines);
  }

  lemma LoadSubsTrimmed(lines: seq<string>)
    ensures forall i :: 0 <= i < |LoadSubs(lines)| ==> Trimmed(LoadSubs(lines)[i])
  {
    var r := LoadSubs(lines);
    forall i | 0 <= i < |r| ensures Trimmed(r[i]) {
      assert multiset(r)[r[i]] > 0;
      assert r[i] in multiset(StripAll(lines));
      StrippedTrimmed(lines, r[i]);
    }
  }

  lemma StrippedTrimmed(lines: seq<string>, x: string)
    requires x in StripAll(lines)
    ensures Trimmed(x)
  {
    var stripped := StripAll(lines);
    var j :| 0 <= j < |stripped| && stripped[j] == x;
  }

  lemma LoadSubsKeeps(lines: seq<string>)
    ensures forall i :: 0 <= i < |lines| && IsSubLine(Strip(lines[i])) ==> Strip(lines[i]) in LoadSubs(lines)
  {
    var r := LoadSubs(lines);
    var stripped := StripAll(lines);
    forall i | 0 <= i < |lines| && IsSubLine(Strip(lines[i])) ensures Strip(lines[i]) in r {
      assert stripped[i] == Strip(lines[i]);
      assert multiset(stripped)[stripped[i]] > 0;
    }
  }
}
