/** The sidebar's option lists and default selections (lines 58-91): every
    multiselect offers the distinct values of its column and starts with all
    of them selected; the age slider starts at the column's (min, max). */
module Selections {
  import opened Tables
  import opened Sequences
  import opened Filters

  /** `df[col].unique().tolist() if col in df.columns else []`. */
  function OptionList(t: Table, col: string): seq<Value> {
    if col in t.columns then Distinct(Column(t.rows, col)) else []
  }

  /** Each option list has no duplicates and holds exactly the values of its
      column, in first-seen order; it is empty when the column is absent. */
  lemma OptionListSpec(t: Table, col: string)
    ensures col !in t.columns ==> OptionList(t, col) == []
    ensures NoDuplicates(OptionList(t, col))
    ensures col in t.columns ==> forall v :: v in OptionList(t, col) <==> v in Column(t.rows, col)
    ensures col in t.columns ==> forall i, j :: 0 <= i < j < |OptionList(t, col)| ==>
              FirstIndex(Column(t.rows, col), OptionList(t, col)[i])
              < FirstIndex(Column(t.rows, col), OptionList(t, col)[j])
  {
    if col in t.columns {
      DistinctSpec(Column(t.rows, col));
    }
  }

  /** The ages that `min()` and `max()` look at: NaN cells are skipped. */
  function IntAges(vs: seq<Value>): seq<int> {
    if vs == [] then [] else (if vs[0].Int? then [vs[0].i] else []) + IntAges(vs[1..])
  }

  lemma {:induction false} IntAgesSpec(vs: seq<Value>)
    ensures forall n :: n in IntAges(vs) <==> Int(n) in vs
  {
    if vs != [] {
      IntAgesSpec(vs[1..]);
      assert vs == [vs[0]] + vs[1..];
    }
  }

  function Min(s: seq<int>): (m: int)
    requires s != []
    ensures m in s && forall x :: x in s ==> m <= x
  {
    if |s| == 1 then s[0]
    else
      assert s == [s[0]] + s[1..];
      var m := Min(s[1..]); if s[0] <= m then s[0] else m
  }

  function Max(s: seq<int>): (m: int)
    requires s != []
    ensures m in s && forall x :: x in s ==> x <= m
  {
    if |s| == 1 then s[0]
    else
      assert s == [s[0]] + s[1..];
      var m := Max(s[1..]); if s[0] >= m then s[0] else m
  }

  /** Lines 65-67: `int(df["age"].min())` is evaluated before the column test,
      so an absent `age` column raises KeyError, and a column whose every cell
      is NaN makes `int(NaN)` raise ValueError; otherwise the pair is
      (min, max) of the integer ages. */
  function DefaultAgeRange(t: Table): Result<(int, int)> {
    if "age" !in t.columns then Err(MissingColumn("age"))
    else
      var ages := IntAges(Column(t.rows, "age"));
      if ages == [] then Err(NoNumericValue("age")) else Ok((Min(ages), Max(ages)))
  }

  /** The age range fails exactly in the two cases above; when it exists it is
      the tightest interval holding every integer age, with both ends taken
      by some student. */
  lemma DefaultAgeRangeSpec(t: Table)
    ensures DefaultAgeRange(t) == Err(MissingColumn("age")) <==> "age" !in t.columns
    ensures "age" in t.columns ==>
              (DefaultAgeRange(t) == Err(NoNumericValue("age")) <==>
               forall i :: 0 <= i < |t.rows| ==> !Cell(t.rows[i], "age").Int?)
    ensures DefaultAgeRange(t).Ok? ==>
              var (lo, hi) := DefaultAgeRange(t).value;
              && lo <= hi
              && Int(lo) in Column(t.rows, "age") && Int(hi) in Column(t.rows, "age")
              && forall i :: 0 <= i < |t.rows| && Cell(t.rows[i], "age").Int? ==>
                   lo <= Cell(t.rows[i], "age").i <= hi
  {
    if "age" in t.columns {
      var vs := Column(t.rows, "age");
      IntAgesSpec(vs);
      var ages := IntAges(vs);
      if ages == [] {
        forall i | 0 <= i < |t.rows| ensures !Cell(t.rows[i], "age").Int? {
          assert vs[i] == Cell(t.rows[i], "age") && vs[i] in vs;
        }
      } else {
        var n := ages[0];
        assert Int(n) in vs;
        var w :| 0 <= w < |vs| && vs[w] == Int(n);
        assert Cell(t.rows[w], "age").Int?;
        forall i | 0 <= i < |t.rows| && Cell(t.rows[i], "age").Int?
          ensures Cell(t.rows[i], "age").i in ages
        {
          assert vs[i] == Int(Cell(t.rows[i], "age").i);
        }
      }
    }
  }

  /** The student-side defaults: every grade selected, the widest age range. */
  function DefaultStudentFilter(t: Table): Result<StudentFilter> {
    var grades := OptionList(t, "grade");
    match DefaultAgeRange(t)
    case Err(e) => Err(e)
    case Ok((lo, hi)) => Ok(StudentFilter(grades, lo, hi))
  }

  /** The enrollment-side defaults: every course and every instructor selected. */
  function DefaultEnrollmentFilter(t: Table): EnrollmentFilter {
    EnrollmentFilter(OptionList(t, "course_id"), OptionList(t, "instructor"))
  }

  /** With the default selections nothing is filtered out: the student table
      comes back unchanged and in its original order, provided every student
      has an integer age (a NaN age fails the slider's comparison). */
  lemma DefaultStudentFilterIsIdentity(t: Table)
    requires DefaultStudentFilter(t).Ok?
    requires forall i :: 0 <= i < |t.rows| ==> Cell(t.rows[i], "age").Int?
    ensures FilterStudents(t, DefaultStudentFilter(t).value) == t
  {
    var f := DefaultStudentFilter(t).value;
    DefaultAgeRangeSpec(t);
    OptionListSpec(t, "grade");
    forall i | 0 <= i < |t.rows| ensures StudentKept(t.columns, f, t.rows[i]) {
      if "grade" in t.columns {
        assert Column(t.rows, "grade")[i] == Cell(t.rows[i], "grade");
      }
    }
    FullStudentSelectionIsIdentity(t, f);
  }

  /** With the default selections the enrollment table comes back unchanged. */
  lemma DefaultEnrollmentFilterIsIdentity(t: Table)
    ensures FilterEnrollments(t, DefaultEnrollmentFilter(t)) == t
  {
    var f := DefaultEnrollmentFilter(t);
    OptionListSpec(t, "course_id");
    OptionListSpec(t, "instructor");
    forall i | 0 <= i < |t.rows| ensures EnrollmentKept(t.columns, f, t.rows[i]) {
      if "course_id" in t.columns {
        assert Column(t.rows, "course_id")[i] == Cell(t.rows[i], "course_id");
      }
      if "instructor" in t.columns {
        assert Column(t.rows, "instructor")[i] == Cell(t.rows[i], "instructor");
      }
    }
    FullEnrollmentSelectionIsIdentity(t, f);
  }
}
