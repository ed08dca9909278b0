/** The aggregates computed over the full student and enrollment tables:
    `value_counts()` for the grade and course charts (lines 189, 197), its
    first five entries for the top-courses table (line 140), and the
    per-date enrollment counts of the trend chart (lines 170-177). */
module Aggregates {
  import opened Tables
  import opened Sequences

  /** One line of a frequency table: a key and the number of rows carrying it. */
  datatype Bucket<K> = Bucket(key: K, size: nat)

  function Keys<K>(bs: seq<Bucket<K>>): (ks: seq<K>)
    ensures |ks| == |bs|
    ensures forall i :: 0 <= i < |bs| ==> ks[i] == bs[i].key
  {
    if bs == [] then [] else [bs[0].key] + Keys(bs[1..])
  }

  function Total<K>(bs: seq<Bucket<K>>): nat {
    if bs == [] then 0 else bs[0].size + Total(bs[1..])
  }

  predicate NonIncreasing<K>(bs: seq<Bucket<K>>) {
    forall i, j :: 0 <= i < j < |bs| ==> bs[i].size >= bs[j].size
  }

  predicate StrictlyAscending(bs: seq<Bucket<int>>) {
    forall i, j :: 0 <= i < j < |bs| ==> bs[i].key < bs[j].key
  }

  // ---- value_counts ----------------------------------------------------

  /** `value_counts()` drops missing values. */
  function NonNull(vs: seq<Value>): seq<Value> {
    if vs == [] then [] else (if vs[0].Null? then [] else [vs[0]]) + NonNull(vs[1..])
  }

  lemma {:induction false} NonNullSpec(vs: seq<Value>)
    ensures forall v :: v in NonNull(vs) <==> v in vs && !v.Null?
  {
    if vs != [] {
      NonNullSpec(vs[1..]);
      assert vs == [vs[0]] + vs[1..];
    }
  }

  function Tallies(keys: seq<Value>, vs: seq<Value>): seq<Bucket<Value>> {
    seq(|keys|, i requires 0 <= i < |keys| => Bucket(keys[i], Occurrences(vs, keys[i])))
  }

  /** Inserts `b` before the first bucket that is not larger. */
  function InsertBySize(s: seq<Bucket<Value>>, b: Bucket<Value>): seq<Bucket<Value>> {
    if s == [] || b.size >= s[0].size then [b] + s else [s[0]] + InsertBySize(s[1..], b)
  }

  /** Sorts by descending size. */
  function SortBySize(s: seq<Bucket<Value>>): seq<Bucket<Value>> {
    if s == [] then [] else InsertBySize(SortBySize(s[1..]), s[0])
  }

  /** `series.value_counts()`: one bucket per distinct non-missing value, the
      largest first. (Among equal counts this model lists the value seen first
      first; no contract relies on that order.) */
  function ValueCounts(vs: seq<Value>): seq<Bucket<Value>> {
    SortBySize(Tallies(Distinct(NonNull(vs)), vs))
  }

  function Head<K>(bs: seq<Bucket<K>>, n: nat): seq<Bucket<K>> {
    bs[..if |bs| < n then |bs| else n]
  }

  /** Line 140: `enrollments_df["course_id"].value_counts().head(5)`, shown
      only when the column exists. */
  function TopCourses(t: Table): Option<seq<Bucket<Value>>> {
    if "course_id" in t.columns then Some(Head(ValueCounts(Column(t.rows, "course_id")), 5)) else None
  }

  /** Line 189: the grade bar chart's input. */
  function GradeDistribution(t: Table): Option<seq<Bucket<Value>>> {
    if "grade" in t.columns then Some(ValueCounts(Column(t.rows, "grade"))) else None
  }

  /** Line 197: the course pie chart's input. */
  function CoursePopularity(t: Table): Option<seq<Bucket<Value>>> {
    if "course_id" in t.columns then Some(ValueCounts(Column(t.rows, "course_id"))) else None
  }

  lemma {:induction false} InsertBySizeMultiset(s: seq<Bucket<Value>>, b: Bucket<Value>)
    ensures multiset(InsertBySize(s, b)) == multiset(s) + multiset{b}
  {
    if s != [] && b.size < s[0].size {
      InsertBySizeMultiset(s[1..], b);
      assert s == [s[0]] + s[1..];
    }
  }

  lemma {:induction false} InsertBySizeSorted(s: seq<Bucket<Value>>, b: Bucket<Value>)
    requires NonIncreasing(s)
    ensures NonIncreasing(InsertBySize(s, b))
  {
    if s != [] && b.size < s[0].size {
      InsertBySizeSorted(s[1..], b);
      InsertBySizeMultiset(s[1..], b);
      var t := InsertBySize(s[1..], b);
      assert InsertBySize(s, b) == [s[0]] + t;
      forall j | 0 <= j < |t| ensures t[j].size <= s[0].size {
        assert t[j] in multiset(t);
        if t[j] != b {
          assert t[j] in multiset(s[1..]);
          var i :| 0 <= i < |s[1..]| && s[1..][i] == t[j];
          assert s[i + 1] == t[j];
        }
      }
    }
  }

  lemma {:induction false} InsertBySizeKeys(s: seq<Bucket<Value>>, b: Bucket<Value>)
    ensures forall k :: k in Keys(InsertBySize(s, b)) <==> k in Keys(s) || k == b.key
    ensures NoDuplicates(Keys(s)) && b.key !in Keys(s) ==> NoDuplicates(Keys(InsertBySize(s, b)))
  {
    var r := InsertBySize(s, b);
    if s == [] || b.size >= s[0].size {
      assert r[1..] == s;
      NoDuplicatesCons(b.key, Keys(s));
    } else {
      InsertBySizeKeys(s[1..], b);
      var t := InsertBySize(s[1..], b);
      assert r == [s[0]] + t && r[1..] == t;
      NoDuplicatesCons(s[0].key, Keys(t));
      NoDuplicatesCons(s[0].key, Keys(s[1..]));
    }
  }

  lemma {:induction false} SortBySizeSpec(s: seq<Bucket<Value>>)
    ensures NonIncreasing(SortBySize(s))
    ensures multiset(SortBySize(s)) == multiset(s)
  {
    if s != [] {
      SortBySizeSpec(s[1..]);
      InsertBySizeMultiset(SortBySize(s[1..]), s[0]);
      InsertBySizeSorted(SortBySize(s[1..]), s[0]);
      assert s == [s[0]] + s[1..];
    }
  }

  lemma {:induction false} SortBySizeKeys(s: seq<Bucket<Value>>)
    ensures forall k :: k in Keys(SortBySize(s)) <==> k in Keys(s)
    ensures NoDuplicates(Keys(s)) ==> NoDuplicates(Keys(SortBySize(s)))
  {
    if s != [] {
      SortBySizeKeys(s[1..]);
      InsertBySizeKeys(SortBySize(s[1..]), s[0]);
      NoDuplicatesCons(s[0].key, Keys(s[1..]));
    }
  }

  /** Every value-counts table is sorted by count, largest first, lists each
      distinct non-missing value exactly once, and its counts are the
      numbers of cells holding each value. */
  lemma ValueCountsSpec(vs: seq<Value>)
    ensures NonIncreasing(ValueCounts(vs))
    ensures NoDuplicates(Keys(ValueCounts(vs)))
    ensures forall v :: v in Keys(ValueCounts(vs)) <==> v in vs && !v.Null?
    ensures forall i :: 0 <= i < |ValueCounts(vs)| ==>
              ValueCounts(vs)[i].size == Occurrences(vs, ValueCounts(vs)[i].key)
  {
    var keys := Distinct(NonNull(vs));
    DistinctSpec(NonNull(vs));
    NonNullSpec(vs);
    var p := Tallies(keys, vs);
    assert Keys(p) == keys;
    SortBySizeSpec(p);
    SortBySizeKeys(p);
    var r := ValueCounts(vs);
    forall i | 0 <= i < |r| ensures r[i].size == Occurrences(vs, r[i].key) {
      assert r[i] in multiset(r);
      assert r[i] in p;
      var j :| 0 <= j < |p| && p[j] == r[i];
    }
  }

  /** The top-courses table has at most five entries, largest first, each
      with its true count; a course it leaves out occurs in the enrollments
      only if the table is full, and no more often than its last entry. */
  lemma TopCoursesSpec(t: Table)
    requires "course_id" in t.columns
    ensures var top := TopCourses(t).value;
      && |top| <= 5
      && NonIncreasing(top)
      && NoDuplicates(Keys(top))
      && top == CoursePopularity(t).value[..|top|]
    ensures var top := TopCourses(t).value; var vs := Column(t.rows, "course_id");
      forall i :: 0 <= i < |top| ==> top[i].size == Occurrences(vs, top[i].key)
    ensures var top := TopCourses(t).value; var vs := Column(t.rows, "course_id");
      forall v :: v in Keys(top) ==> v in vs && !v.Null?
    ensures var top := TopCourses(t).value; var vs := Column(t.rows, "course_id");
      forall v :: v in vs && !v.Null? && v !in Keys(top) ==> |top| == 5 && Occurrences(vs, v) <= top[4].size
  {
    var vs := Column(t.rows, "course_id");
    var r := ValueCounts(vs);
    ValueCountsSpec(vs);
    var top := TopCourses(t).value;
    assert top == r[..|top|];
    forall i | 0 <= i < |top| ensures top[i] == r[i] && Keys(top)[i] == Keys(r)[i] { }
    forall i, j | 0 <= i < j < |top| ensures Keys(top)[i] != Keys(top)[j] {
      assert Keys(r)[i] != Keys(r)[j];
    }
    forall v | v in vs && !v.Null? && v !in Keys(top)
      ensures |top| == 5 && Occurrences(vs, v) <= top[4].size
    {
      assert forall k :: 0 <= k < |top| ==> Keys(r)[k] != v by {
        forall k | 0 <= k < |top| ensures Keys(r)[k] != v {
          assert Keys(top)[k] in Keys(top);
        }
      }
      var j :| 0 <= j < |r| && Keys(r)[j] == v;
    }
  }

  /** The grade chart's input exists exactly when there is a `grade` column,
      and is then a value-counts table of that column: largest first, each
      present grade once, with its true count. */
  lemma GradeDistributionSpec(t: Table)
    ensures GradeDistribution(t).Some? <==> "grade" in t.columns
    ensures GradeDistribution(t).Some? ==>
              var g := GradeDistribution(t).value; var vs := Column(t.rows, "grade");
              && NonIncreasing(g)
              && NoDuplicates(Keys(g))
              && (forall v :: v in Keys(g) <==> v in vs && !v.Null?)
              && forall i :: 0 <= i < |g| ==> g[i].size == Occurrences(vs, g[i].key)
  {
    ValueCountsSpec(Column(t.rows, "grade"));
  }

  // ---- the enrollment trend --------------------------------------------

  /** The count kept for key `k`, or 0 when `k` has no bucket. */
  function SizeOf(bs: seq<Bucket<int>>, k: int): nat {
    if bs == [] then 0 else if bs[0].key == k then bs[0].size else SizeOf(bs[1..], k)
  }

  /** Counts one more enrollment at timestamp key `d` in a table kept
      ascending by key. */
  function AddDate(acc: seq<Bucket<int>>, d: int): seq<Bucket<int>> {
    if acc == [] then [Bucket(d, 1)]
    else if d < acc[0].key then [Bucket(d, 1)] + acc
    else if d == acc[0].key then [Bucket(d, acc[0].size + 1)] + acc[1..]
    else [acc[0]] + AddDate(acc[1..], d)
  }

  /** `groupby(date).size()` followed by `sort_values(date)`. */
  function Tally(ds: seq<int>): seq<Bucket<int>> {
    if ds == [] then [] else AddDate(Tally(ds[1..]), ds[0])
  }

  /** The normalised dates of a column; a missing date (NaT) is dropped by
      `groupby`. */
  function DateKeys(vs: seq<Value>): seq<int> {
    if vs == [] then [] else (if vs[0].Date? then [vs[0].key] else []) + DateKeys(vs[1..])
  }

  /** Lines 170-177: the trend chart's input, drawn only when the enrollment
      table has an `enrollment_date` column. */
  function EnrollmentTrend(t: Table): Option<seq<Bucket<int>>> {
    if "enrollment_date" in t.columns
    then Some(Tally(DateKeys(Column(t.rows, "enrollment_date"))))
    else None
  }

  lemma {:induction false} SizeOfAbsent(bs: seq<Bucket<int>>, k: int)
    requires k !in Keys(bs)
    ensures SizeOf(bs, k) == 0
  {
    if bs != [] {
      SizeOfAbsent(bs[1..], k);
    }
  }

  lemma {:induction false} SizeOfAt(bs: seq<Bucket<int>>, i: int)
    requires StrictlyAscending(bs) && 0 <= i < |bs|
    ensures SizeOf(bs, bs[i].key) == bs[i].size
  {
    if i > 0 {
      SizeOfAt(bs[1..], i - 1);
    }
  }

  lemma {:induction false} AddDateKeys(acc: seq<Bucket<int>>, d: int)
    requires StrictlyAscending(acc)
    ensures StrictlyAscending(AddDate(acc, d))
    ensures forall k :: k in Keys(AddDate(acc, d)) <==> k in Keys(acc) || k == d
  {
    var r := AddDate(acc, d);
    if acc == [] {
    } else if d < acc[0].key {
      assert r[1..] == acc;
    } else if d == acc[0].key {
      assert r[1..] == acc[1..];
    } else {
      AddDateKeys(acc[1..], d);
      var t := AddDate(acc[1..], d);
      assert r == [acc[0]] + t && r[1..] == t;
      forall j | 0 <= j < |t| ensures acc[0].key < t[j].key {
        assert Keys(t)[j] == t[j].key && t[j].key in Keys(t);
        if t[j].key != d {
          var i :| 0 <= i < |Keys(acc[1..])| && Keys(acc[1..])[i] == t[j].key;
          assert acc[i + 1].key == t[j].key;
        }
      }
    }
  }

  lemma {:induction false} AddDateSizes(acc: seq<Bucket<int>>, d: int)
    requires StrictlyAscending(acc)
    ensures forall k :: SizeOf(AddDate(acc, d), k) == SizeOf(acc, k) + (if k == d then 1 else 0)
    ensures Total(AddDate(acc, d)) == Total(acc) + 1
  {
    var r := AddDate(acc, d);
    if acc == [] {
    } else if d < acc[0].key {
      assert r[1..] == acc;
      assert d !in Keys(acc);
      SizeOfAbsent(acc, d);
    } else if d == acc[0].key {
      assert r[1..] == acc[1..];
    } else {
      AddDateSizes(acc[1..], d);
      assert r[1..] == AddDate(acc[1..], d);
    }
  }

  lemma {:induction false} TallyCounts(ds: seq<int>)
    ensures StrictlyAscending(Tally(ds))
    ensures forall k :: k in Keys(Tally(ds)) <==> k in ds
    ensures forall k :: SizeOf(Tally(ds), k) == Occurrences(ds, k)
    ensures Total(Tally(ds)) == |ds|
  {
    if ds != [] {
      TallyCounts(ds[1..]);
      AddDateKeys(Tally(ds[1..]), ds[0]);
      AddDateSizes(Tally(ds[1..]), ds[0]);
      assert ds == [ds[0]] + ds[1..];
    }
  }

  /** The trend has one entry per distinct date, strictly ascending by date;
      each count is the number of occurrences of its date, and the counts add
      up to the number of dates. */
  lemma TallySpec(ds: seq<int>)
    ensures StrictlyAscending(Tally(ds))
    ensures forall k :: k in Keys(Tally(ds)) <==> k in ds
    ensures forall i :: 0 <= i < |Tally(ds)| ==> Tally(ds)[i].size == Occurrences(ds, Tally(ds)[i].key)
    ensures Total(Tally(ds)) == |ds|
  {
    TallyCounts(ds);
    forall i | 0 <= i < |Tally(ds)| ensures Tally(ds)[i].size == Occurrences(ds, Tally(ds)[i].key) {
      SizeOfAt(Tally(ds), i);
    }
  }

  lemma {:induction false} DateKeysSpec(vs: seq<Value>)
    ensures forall d :: Occurrences(DateKeys(vs), d) == Occurrences(vs, Date(d))
    ensures |DateKeys(vs)| <= |vs|
    ensures (forall i :: 0 <= i < |vs| ==> vs[i].Date?) ==> |DateKeys(vs)| == |vs|
  {
    if vs != [] {
      DateKeysSpec(vs[1..]);
      if vs[0].Date? {
        assert DateKeys(vs) == [vs[0].key] + DateKeys(vs[1..]);
        assert ([vs[0].key] + DateKeys(vs[1..]))[1..] == DateKeys(vs[1..]);
      } else {
        assert DateKeys(vs) == DateKeys(vs[1..]);
      }
      if forall i :: 0 <= i < |vs| ==> vs[i].Date? {
        assert forall i :: 0 <= i < |vs[1..]| ==> vs[1..][i] == vs[i + 1];
      }
    }
  }

  /** The enrollment trend over a table: ascending by date, one entry per date
      that some enrollment carries, each with the number of enrollments on
      that date; when every enrollment has a date, the counts add up to the
      number of enrollments. */
  lemma EnrollmentTrendSpec(t: Table)
    requires "enrollment_date" in t.columns
    ensures StrictlyAscending(EnrollmentTrend(t).value)
    ensures forall d :: d in Keys(EnrollmentTrend(t).value) <==> Date(d) in Column(t.rows, "enrollment_date")
    ensures forall i :: 0 <= i < |EnrollmentTrend(t).value| ==>
              EnrollmentTrend(t).value[i].size
              == Occurrences(Column(t.rows, "enrollment_date"), Date(EnrollmentTrend(t).value[i].key))
    ensures Total(EnrollmentTrend(t).value) <= |t.rows|
    ensures (forall i :: 0 <= i < |t.rows| ==> Cell(t.rows[i], "enrollment_date").Date?) ==>
              Total(EnrollmentTrend(t).value) == |t.rows|
  {
    var vs := Column(t.rows, "enrollment_date");
    DateKeysSpec(vs);
    TallySpec(DateKeys(vs));
    forall d ensures d in DateKeys(vs) <==> Date(d) in vs {
      assert Occurrences(DateKeys(vs), d) == Occurrences(vs, Date(d));
    }
  }
}
