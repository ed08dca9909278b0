/** The two places where the script changes things step by step: the loop
    that drops the storage identifier from each loaded DataFrame in place
    (lines 46-48), and the loop that turns an edited student table into one
    `update_one` call per row (lines 145-159). */
module WriteBack {
  import opened Tables
  import opened Filters

  /** A DataFrame the script mutates in place. */
  class Frame {
    var columns: set<string>
    var rows: seq<Record>

    constructor (t: Table)
      ensures Snapshot() == t
    {
      columns := t.columns;
      rows := t.rows;
    }

    /** `df.copy()`: the table as a value, unaffected by later updates. */
    function Snapshot(): Table
      reads this
    {
      Table(columns, rows)
    }

    /** `df.drop(columns=[c], inplace=True)`. */
    method Drop(c: string)
      modifies this
      ensures Snapshot() == DropColumn(old(Snapshot()), c)
    {
      var t := DropColumn(Table(columns, rows), c);
      columns := t.columns;
      rows := t.rows;
    }
  }

  /** What the frame holds after the identifier pass has visited it. */
  function WithoutStorageId(t: Table): Table {
    if "_id" in t.columns then DropColumn(t, "_id") else t
  }

  lemma WithoutStorageIdSpec(t: Table)
    ensures "_id" !in WithoutStorageId(t).columns
    ensures WithoutStorageId(WithoutStorageId(t)) == WithoutStorageId(t)
    ensures WithoutStorageId(t).columns == t.columns - {"_id"}
  {
  }

  /** Lines 46-48: `for df in [...]: if "_id" in df.columns: df.drop(...)`.
      A frame listed twice is dropped once; frames not listed are untouched. */
  method DropStorageIds(frames: seq<Frame>)
    modifies set f | f in frames
    ensures forall j :: 0 <= j < |frames| ==> frames[j].Snapshot() == WithoutStorageId(old(frames[j].Snapshot()))
    ensures forall j :: 0 <= j < |frames| ==> "_id" !in frames[j].columns
  {
    var i := 0;
    while i < |frames|
      invariant 0 <= i <= |frames|
      invariant forall j :: 0 <= j < |frames| ==>
                  frames[j].Snapshot() == if frames[j] in frames[..i]
                                          then WithoutStorageId(old(frames[j].Snapshot()))
                                          else old(frames[j].Snapshot())
    {
      var df := frames[i];
      if "_id" in df.columns {
        df.Drop("_id");
      }
      WithoutStorageIdSpec(old(df.Snapshot()));
      assert frames[..i + 1] == frames[..i] + [df];
      i := i + 1;
    }
    assert frames[..i] == frames;
    forall j | 0 <= j < |frames| ensures "_id" !in frames[j].columns {
      WithoutStorageIdSpec(old(frames[j].Snapshot()));
    }
  }

  /** The filter of an `update_one` call. `ByStoredId(p)` stands for
      `{"_id": students_df.iloc[p]["_id"]}`; `ByAge(a)` for `{"age": a}`. */
  datatype MatchKey = ByStoredId(position: nat) | ByAge(age: Value)

  /** `update_one(key, {"$set": fields})`. */
  datatype UpdateOp = UpdateOp(key: MatchKey, fields: Record)

  /** The key chosen at lines 153-157 for the edited row at `position`. */
  function KeyFor(studentColumns: set<string>, edited: Table, position: nat): MatchKey
    requires position < |edited.rows|
  {
    if "_id" in studentColumns then ByStoredId(position) else ByAge(Cell(edited.rows[position], "age"))
  }

  /** `row["age"]` is needed and the edited table has no such column. */
  predicate AgeKeyFails(studentColumns: set<string>, edited: Table) {
    "_id" !in studentColumns && "age" !in edited.columns && |edited.rows| > 0
  }

  /** Lines 145-159 as the list of updates sent. Nothing is sent when the
      filtered table is empty (no editor is shown) or the edit changed
      nothing; otherwise one update per edited row, in row order, whose `$set`
      is the whole row. When the key falls back to the age and the edited
      table has no age column, `row["age"]` raises on the first row, before
      anything is sent. */
  method UpdatesFor(studentColumns: set<string>, filtered: Table, edited: Table)
    returns (r: Result<seq<UpdateOp>>)
    ensures IsEmpty(filtered) || SameFrame(edited, filtered) ==> r == Ok([])
    ensures !IsEmpty(filtered) && !SameFrame(edited, filtered) && AgeKeyFails(studentColumns, edited)
            ==> r == Err(MissingColumn("age"))
    ensures !IsEmpty(filtered) && !SameFrame(edited, filtered) && !AgeKeyFails(studentColumns, edited) ==>
              && r.Ok?
              && |r.value| == |edited.rows|
              && forall i :: 0 <= i < |edited.rows| ==>
                   r.value[i] == UpdateOp(KeyFor(studentColumns, edited, i), RowDict(edited.columns, edited.rows[i]))
  {
    if IsEmpty(filtered) || SameFrame(edited, filtered) {
      return Ok([]);
    }
    var ops: seq<UpdateOp> := [];
    var i := 0;
    while i < |edited.rows|
      invariant 0 <= i <= |edited.rows|
      invariant |ops| == i
      invariant forall k :: 0 <= k < i ==>
                  ops[k] == UpdateOp(KeyFor(studentColumns, edited, k), RowDict(edited.columns, edited.rows[k]))
      invariant i > 0 ==> "_id" in studentColumns || "age" in edited.columns
    {
      var row := edited.rows[i];
      var key: MatchKey;
      if "_id" in studentColumns {
        key := ByStoredId(i);
      } else if "age" in edited.columns {
        key := ByAge(Cell(row, "age"));
      } else {
        return Err(MissingColumn("age"));
      }
      ops := ops + [UpdateOp(key, RowDict(edited.columns, row))];
      i := i + 1;
    }
    return Ok(ops);
  }

  /** A row that carries exactly its table's columns is sent as it is: its
      `$set` is the row itself. */
  lemma UpdateSetsWholeRow(columns: set<string>, row: Record)
    requires row.Keys == columns
    ensures RowDict(columns, row) == row
  {
    assert forall c :: c in columns ==> RowDict(columns, row)[c] == row[c];
  }

  /** The script's order of events: the identifiers are dropped from all three
      frames, the students are filtered, and the edits are written back. Since
      `students_df` no longer has `_id` by then, every update matches on the
      row's age. */
  method EditRound(students: Frame, courses: Frame, enrollments: Frame, f: StudentFilter, edited: Table)
    returns (filtered: Table, r: Result<seq<UpdateOp>>)
    modifies students, courses, enrollments
    ensures students.Snapshot() == WithoutStorageId(old(students.Snapshot()))
    ensures courses.Snapshot() == WithoutStorageId(old(courses.Snapshot()))
    ensures enrollments.Snapshot() == WithoutStorageId(old(enrollments.Snapshot()))
    ensures filtered == FilterStudents(students.Snapshot(), f)
    ensures IsEmpty(filtered) || SameFrame(edited, filtered) ==> r == Ok([])
    ensures !IsEmpty(filtered) && !SameFrame(edited, filtered) && "age" in edited.columns ==>
              r.Ok? && |r.value| == |edited.rows|
    ensures !IsEmpty(filtered) && !SameFrame(edited, filtered) && "age" !in edited.columns && |edited.rows| > 0 ==>
              r == Err(MissingColumn("age"))
    ensures r.Ok? ==> r.value == [] || |r.value| == |edited.rows|
    ensures r.Ok? ==> forall k :: 0 <= k < |r.value| ==>
              r.value[k].key == ByAge(Cell(edited.rows[k], "age"))
              && r.value[k].fields == RowDict(edited.columns, edited.rows[k])
  {
    var frames := [students, courses, enrollments];
    DropStorageIds(frames);
    assert frames[0] == students && frames[1] == courses && frames[2] == enrollments;
    filtered := FilterStudents(students.Snapshot(), f);
    WithoutStorageIdSpec(old(students.Snapshot()));
    r := UpdatesFor(students.columns, filtered, edited);
  }
}
