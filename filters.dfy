/** The filter engine: each predicate is a boolean mask applied only when its
    column is present; the masks of one table are combined with AND. */
module Filters {
  import opened Tables
  import opened Sequences

  /** One mask: `df[col].isin(allowed)` or `(df[col] >= lo) & (df[col] <= hi)`. */
  datatype Mask = IsIn(col: string, allowed: seq<Value>) | Between(col: string, lo: int, hi: int)

  /** A comparison with a missing (or non-integer) age is false. */
  predicate Holds(m: Mask, row: Record) {
    match m
    case IsIn(c, allowed) => Cell(row, c) in allowed
    case Between(c, lo, hi) => Cell(row, c).Int? && lo <= Cell(row, c).i <= hi
  }

  predicate HoldsAll(ms: seq<Mask>, row: Record) {
    forall k :: 0 <= k < |ms| ==> Holds(ms[k], row)
  }

  /** `df[mask]`: the rows where every mask holds, in their original order. */
  function Select(rows: seq<Record>, ms: seq<Mask>): seq<Record> {
    if rows == [] then []
    else (if HoldsAll(ms, rows[0]) then [rows[0]] else []) + Select(rows[1..], ms)
  }

  function Where(t: Table, m: Mask): Table {
    Table(t.columns, Select(t.rows, [m]))
  }

  /** The selections held by the sidebar widgets. */
  datatype StudentFilter = StudentFilter(grades: seq<Value>, ageLo: int, ageHi: int)
  datatype EnrollmentFilter = EnrollmentFilter(courses: seq<Value>, instructors: seq<Value>)

  /** Lines 94-103: copy, then narrow by grade and by age where those columns exist. */
  function FilterStudents(t: Table, f: StudentFilter): Table {
    var byGrade := if "grade" in t.columns then Where(t, IsIn("grade", f.grades)) else t;
    if "age" in byGrade.columns then Where(byGrade, Between("age", f.ageLo, f.ageHi)) else byGrade
  }

  /** Lines 105-113: copy, then narrow by course and by instructor where those columns exist. */
  function FilterEnrollments(t: Table, f: EnrollmentFilter): Table {
    var byCourse := if "course_id" in t.columns then Where(t, IsIn("course_id", f.courses)) else t;
    if "instructor" in byCourse.columns then Where(byCourse, IsIn("instructor", f.instructors)) else byCourse
  }

  /** When a student row survives, stated independently of the masks. */
  predicate StudentKept(columns: set<string>, f: StudentFilter, x: Record) {
    && ("grade" in columns ==> Cell(x, "grade") in f.grades)
    && ("age" in columns ==> Cell(x, "age").Int? && f.ageLo <= Cell(x, "age").i <= f.ageHi)
  }

  /** When an enrollment row survives, stated independently of the masks. */
  predicate EnrollmentKept(columns: set<string>, f: EnrollmentFilter, x: Record) {
    && ("course_id" in columns ==> Cell(x, "course_id") in f.courses)
    && ("instructor" in columns ==> Cell(x, "instructor") in f.instructors)
  }

  // ---- properties of one selection -------------------------------------

  lemma {:induction false} SelectSpec(rows: seq<Record>, ms: seq<Mask>)
    ensures IsSubsequence(Select(rows, ms), rows)
    ensures forall x :: multiset(Select(rows, ms))[x] == if HoldsAll(ms, x) then multiset(rows)[x] else 0
  {
    if rows != [] {
      SelectSpec(rows[1..], ms);
      var tail := Select(rows[1..], ms);
      assert rows == [rows[0]] + rows[1..];
      if HoldsAll(ms, rows[0]) {
        assert Select(rows, ms) == [rows[0]] + tail;
        assert Select(rows, ms)[1..] == tail;
      } else {
        assert Select(rows, ms) == tail;
      }
    }
  }

  lemma {:induction false} SelectNone(rows: seq<Record>)
    ensures Select(rows, []) == rows
  {
    if rows != [] {
      SelectNone(rows[1..]);
      assert HoldsAll([], rows[0]);
    }
  }

  lemma HoldsAllConcat(ms1: seq<Mask>, ms2: seq<Mask>, x: Record)
    ensures HoldsAll(ms1 + ms2, x) <==> HoldsAll(ms1, x) && HoldsAll(ms2, x)
  {
    if HoldsAll(ms1 + ms2, x) {
      forall k | 0 <= k < |ms1| ensures Holds(ms1[k], x) {
        assert (ms1 + ms2)[k] == ms1[k];
      }
      forall k | 0 <= k < |ms2| ensures Holds(ms2[k], x) {
        assert (ms1 + ms2)[|ms1| + k] == ms2[k];
      }
    }
    if HoldsAll(ms1, x) && HoldsAll(ms2, x) {
      forall k | 0 <= k < |ms1 + ms2| ensures Holds((ms1 + ms2)[k], x) {
        if k >= |ms1| { assert (ms1 + ms2)[k] == ms2[k - |ms1|]; }
      }
    }
  }

  lemma {:induction false} SelectTwice(rows: seq<Record>, ms1: seq<Mask>, ms2: seq<Mask>)
    ensures Select(Select(rows, ms1), ms2) == Select(rows, ms1 + ms2)
  {
    if rows != [] {
      SelectTwice(rows[1..], ms1, ms2);
      var x := rows[0];
      HoldsAllConcat(ms1, ms2, x);
      if HoldsAll(ms1, x) {
        var s1 := Select(rows[1..], ms1);
        assert Select(rows, ms1) == [x] + s1;
        assert ([x] + s1)[1..] == s1;
        assert Select([x] + s1, ms2) == (if HoldsAll(ms2, x) then [x] else []) + Select(s1, ms2);
      } else {
        assert Select(rows, ms1) == Select(rows[1..], ms1);
      }
    }
  }

  lemma {:induction false} SelectKeepsAll(rows: seq<Record>, ms: seq<Mask>)
    requires forall i :: 0 <= i < |rows| ==> HoldsAll(ms, rows[i])
    ensures Select(rows, ms) == rows
  {
    if rows != [] {
      SelectKeepsAll(rows[1..], ms);
      assert HoldsAll(ms, rows[0]);
    }
  }

  lemma {:induction false} SelectEmptyAllowed(rows: seq<Record>, c: string)
    ensures Select(rows, [IsIn(c, [])]) == []
  {
    if rows != [] {
      SelectEmptyAllowed(rows[1..], c);
      assert !Holds([IsIn(c, [])][0], rows[0]);
    }
  }

  // ---- the student filter ----------------------------------------------

  function StudentMasks(columns: set<string>, f: StudentFilter): seq<Mask> {
    (if "grade" in columns then [IsIn("grade", f.grades)] else [])
    + (if "age" in columns then [Between("age", f.ageLo, f.ageHi)] else [])
  }

  lemma StudentFilterIsSelect(t: Table, f: StudentFilter)
    ensures FilterStudents(t, f) == Table(t.columns, Select(t.rows, StudentMasks(t.columns, f)))
    ensures forall x :: HoldsAll(StudentMasks(t.columns, f), x) <==> StudentKept(t.columns, f, x)
  {
    var gm := if "grade" in t.columns then [IsIn("grade", f.grades)] else [];
    var am := if "age" in t.columns then [Between("age", f.ageLo, f.ageHi)] else [];
    SelectNone(t.rows);
    SelectNone(Select(t.rows, gm));
    SelectTwice(t.rows, gm, am);
    assert gm + [] == gm;
    forall x ensures HoldsAll(gm + am, x) <==> StudentKept(t.columns, f, x) {
      if "grade" in t.columns && HoldsAll(gm + am, x) { assert Holds((gm + am)[0], x); }
      if "age" in t.columns && HoldsAll(gm + am, x) { assert Holds((gm + am)[|gm|], x); }
    }
  }

  /** A student row is kept exactly when (grade absent or grade selected) and
      (age absent or lo <= age <= hi); the result keeps the columns, is a
      subsequence of the source in source order, and keeps every copy of a
      kept row. */
  lemma FilterStudentsSpec(t: Table, f: StudentFilter)
    ensures FilterStudents(t, f).columns == t.columns
    ensures IsSubsequence(FilterStudents(t, f).rows, t.rows)
    ensures forall x :: multiset(FilterStudents(t, f).rows)[x] ==
              if StudentKept(t.columns, f, x) then multiset(t.rows)[x] else 0
    ensures forall x :: x in FilterStudents(t, f).rows <==> x in t.rows && StudentKept(t.columns, f, x)
  {
    StudentFilterIsSelect(t, f);
    SelectSpec(t.rows, StudentMasks(t.columns, f));
  }

  /** Selecting no grade on a table that has a grade column removes every
      row, whatever the age range. */
  lemma EmptyGradeSelectionRemovesAll(t: Table, lo: int, hi: int)
    requires "grade" in t.columns
    ensures FilterStudents(t, StudentFilter([], lo, hi)).rows == []
  {
    var byGrade := Where(t, IsIn("grade", []));
    SelectEmptyAllowed(t.rows, "grade");
    assert byGrade.rows == [];
  }

  /** Without a grade column the grade selection is ignored, even when it is
      empty; without an age column too, the table passes through unchanged. */
  lemma AbsentGradeIsSkipped(t: Table, grades: seq<Value>, lo: int, hi: int)
    requires "grade" !in t.columns
    ensures FilterStudents(t, StudentFilter([], lo, hi)) == FilterStudents(t, StudentFilter(grades, lo, hi))
    ensures "age" !in t.columns ==> FilterStudents(t, StudentFilter([], lo, hi)) == t
  {
  }

  /** A selection that admits every row leaves the table exactly as it was. */
  lemma FullStudentSelectionIsIdentity(t: Table, f: StudentFilter)
    requires forall i :: 0 <= i < |t.rows| ==> StudentKept(t.columns, f, t.rows[i])
    ensures FilterStudents(t, f) == t
  {
    StudentFilterIsSelect(t, f);
    SelectKeepsAll(t.rows, StudentMasks(t.columns, f));
  }

  /** A student whose age is missing is never shown while the table has an age
      column, whatever the selection. */
  lemma MissingAgeIsHidden(t: Table, f: StudentFilter, x: Record)
    requires "age" in t.columns && !Cell(x, "age").Int?
    ensures x !in FilterStudents(t, f).rows
  {
    FilterStudentsSpec(t, f);
  }

  // ---- the enrollment filter -------------------------------------------

  function EnrollmentMasks(columns: set<string>, f: EnrollmentFilter): seq<Mask> {
    (if "course_id" in columns then [IsIn("course_id", f.courses)] else [])
    + (if "instructor" in columns then [IsIn("instructor", f.instructors)] else [])
  }

  lemma EnrollmentFilterIsSelect(t: Table, f: EnrollmentFilter)
    ensures FilterEnrollments(t, f) == Table(t.columns, Select(t.rows, EnrollmentMasks(t.columns, f)))
    ensures forall x :: HoldsAll(EnrollmentMasks(t.columns, f), x) <==> EnrollmentKept(t.columns, f, x)
  {
    var cm := if "course_id" in t.columns then [IsIn("course_id", f.courses)] else [];
    var im := if "instructor" in t.columns then [IsIn("instructor", f.instructors)] else [];
    SelectNone(t.rows);
    SelectNone(Select(t.rows, cm));
    SelectTwice(t.rows, cm, im);
    assert cm + [] == cm;
    forall x ensures HoldsAll(cm + im, x) <==> EnrollmentKept(t.columns, f, x) {
      if "course_id" in t.columns && HoldsAll(cm + im, x) { assert Holds((cm + im)[0], x); }
      if "instructor" in t.columns && HoldsAll(cm + im, x) { assert Holds((cm + im)[|cm|], x); }
    }
  }

  /** An enrollment row is kept exactly when (course_id absent or selected)
      and (instructor absent or selected), as an order-preserving
      subsequence of the source. */
  lemma FilterEnrollmentsSpec(t: Table, f: EnrollmentFilter)
    ensures FilterEnrollments(t, f).columns == t.columns
    ensures IsSubsequence(FilterEnrollments(t, f).rows, t.rows)
    ensures forall x :: multiset(FilterEnrollments(t, f).rows)[x] ==
              if EnrollmentKept(t.columns, f, x) then multiset(t.rows)[x] else 0
    ensures forall x :: x in FilterEnrollments(t, f).rows <==> x in t.rows && EnrollmentKept(t.columns, f, x)
  {
    EnrollmentFilterIsSelect(t, f);
    SelectSpec(t.rows, EnrollmentMasks(t.columns, f));
  }

  /** A selection that admits every row leaves the table exactly as it was. */
  lemma FullEnrollmentSelectionIsIdentity(t: Table, f: EnrollmentFilter)
    requires forall i :: 0 <= i < |t.rows| ==> EnrollmentKept(t.columns, f, t.rows[i])
    ensures FilterEnrollments(t, f) == t
  {
    EnrollmentFilterIsSelect(t, f);
    SelectKeepsAll(t.rows, EnrollmentMasks(t.columns, f));
  }
}
