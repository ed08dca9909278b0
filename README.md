# School dashboard query layer, modelled in Dafny

`streamlitass.py` is a single-script Streamlit dashboard over three MongoDB
collections (`students`, `courses`, `enrollments`). Under its widgets sits a
thin layer of its own logic over pandas, and that is what this project models:

* **Filter engine** (`filters.dfy`): the student table is narrowed by
  `grade ∈ selected` and `lo ≤ age ≤ hi`, and the enrollment table by
  `course_id ∈ selected` and `instructor ∈ selected`. Each mask is applied
  only when its column exists. An absent column skips its predicate, but an
  empty selection on a present column removes every row.
* **Option lists and defaults** (`selections.dfy`): each multiselect offers
  the column's `unique()` values in first-seen order, or `[]` when the column
  is absent, and starts with all of them selected. The age slider starts at
  the column's (min, max).
* **Aggregates** (`aggregates.dfy`): `value_counts()` of grades and courses,
  its first five entries (the top-courses table), and the per-date
  enrollment counts sorted by date.
* **Identifier drop and write-back** (`writeback.dfy`): the loop that drops
  `_id` from each DataFrame in place, and the loop that turns an edited
  student table into one `update_one(key, {"$set": row})` per row.

A table is a `Table(columns, rows)`: the set of present column names and a
sequence of records, each a map from field name to `Value` (`Null`, `Int`,
`Str` or `Date`). A record that lacks a field of its table reads as `Null`,
pandas' NaN. This matches pandas in three ways:

* `Null` is an ordinary value for `unique()` and `isin`, because pandas
  matches NaN with NaN.
* `Null` is dropped by `value_counts()` and `groupby`.
* `Null` fails the age comparison.

A `Date` is a timestamp as `pd.to_datetime` leaves it, time of day included,
normalised to an integer key, so `groupby` groups by the full timestamp. The
filters, option lists and aggregates are functions on table values, so they
cannot change their source. The two in-place loops are methods: one on a
`Frame` class (a mutable DataFrame), and one that returns the list of update
operations it sends.

The model follows what the script does, including four behaviours that a
reader of the dashboard might not expect:

* The write-back is all or nothing. As soon as the edited table differs from
  the filtered one, the script sends one update for every edited row, not
  only for the rows that changed (lines 150-159).
* The match key is always the row's age. The expression at lines 153-157
  would use the stored `_id`, but line 48 has already dropped `_id` from
  `students_df`, so the key is `{"age": row["age"]}` (`WriteBack.EditRound`).
* A missing `age` column makes the script fail. Line 66 tests for the column
  and offers `(0, 100)` as a fallback, so a missing column was evidently meant
  not to fail. But `students_df["age"].min()` on line 65 runs before that
  test and raises KeyError, and the fallback would in any case be a pair in
  the place of a single maximum. `DefaultAgeRange` returns
  `Err(MissingColumn("age"))` for this case. It returns
  `Err(NoNumericValue("age"))` when no student has an integer age, because
  `int(NaN)` raises.
* The default selection is not a no-op. A student whose age is missing fails
  the slider's comparison, so it is hidden even when every grade and the
  widest age range are selected (`Filters.MissingAgeIsHidden`). The identity
  property therefore needs every age to be an integer
  (`Selections.DefaultStudentFilterIsIdentity`).

## Model

| member | source | states |
|---|---|---|
| `Filters.FilterStudentsSpec` | streamlitass.py:94-103 | The result has the source's columns. It is a subsequence of the source rows in source order. A row is kept, with all its copies, exactly when (grade absent or grade selected) and (age absent or an integer with lo ≤ age ≤ hi). |
| `Filters.EmptyGradeSelectionRemovesAll` | streamlitass.py:95-98 | With a `grade` column, selecting no grade leaves zero rows for any age range. |
| `Filters.AbsentGradeIsSkipped` | streamlitass.py:95-103 | Without a `grade` column, an empty grade selection gives the same result as any other. Without an `age` column as well, the table passes through unchanged. |
| `Filters.FullStudentSelectionIsIdentity` | streamlitass.py:94-103 | A selection that admits every row returns the table unchanged, in original order. |
| `Filters.MissingAgeIsHidden` | streamlitass.py:99-103 | While the table has an `age` column, a row whose age is missing or not an integer is never in the result. |
| `Filters.FilterEnrollmentsSpec` | streamlitass.py:105-113 | The result has the source's columns. It is an order-preserving subsequence of the enrollments. A row is kept, with all its copies, exactly when (course_id absent or selected) and (instructor absent or selected). |
| `Filters.FullEnrollmentSelectionIsIdentity` | streamlitass.py:105-113 | A selection that admits every enrollment returns the table unchanged. |
| `Sequences.DistinctSpec` | streamlitass.py:59 | `unique()` has no duplicates and holds exactly the input's values. They appear in strictly increasing order of first occurrence. |
| `Selections.OptionListSpec` | streamlitass.py:58-88 | Each option list is `[]` when its column is absent. Otherwise it has no duplicates, holds exactly the column's values (missing ones included), and lists them in first-seen order. |
| `Selections.DefaultAgeRangeSpec` | streamlitass.py:65-73 | The slider default fails with a missing-column error exactly when `age` is absent. It fails with a no-number error exactly when no row has an integer age. Otherwise it is (lo, hi) with lo ≤ hi, both taken by some student, and every integer age between them. |
| `Selections.DefaultStudentFilterIsIdentity` | streamlitass.py:58-103 | With all grades selected and the slider at (min, max), the student filter returns the table unchanged and in order, given that every student has an integer age. |
| `Selections.DefaultEnrollmentFilterIsIdentity` | streamlitass.py:75-113 | With all courses and all instructors selected, the enrollment filter returns the table unchanged. |
| `Aggregates.ValueCountsSpec` | streamlitass.py:189-197 | `value_counts()` counts never increase down the list. Every distinct non-missing value appears exactly once, and no other value does. Each count is the number of cells holding that value. |
| `Aggregates.GradeDistributionSpec` | streamlitass.py:187-190 | The grade chart's input exists exactly when there is a `grade` column. It is then sorted by count, largest first, lists each present grade once, and gives each its true count. |
| `Aggregates.TopCoursesSpec` | streamlitass.py:138-141 | The top-courses table has at most 5 entries and is the first entries of the course counts: distinct, largest count first, each the true count of a course that occurs. A course left out means the table has 5 entries, and that course occurs no more often than the fifth. |
| `Aggregates.TallySpec` | streamlitass.py:174-177 | The grouped dates are strictly ascending, with one entry per distinct date. Each count is that date's number of occurrences, and the counts sum to the number of dates. |
| `Aggregates.EnrollmentTrendSpec` | streamlitass.py:170-177 | The enrollment trend is strictly ascending by date and has an entry exactly for each date some enrollment carries. Each count is the number of enrollments on that date. The total is at most the number of enrollments, and equals it when every enrollment has a date. |
| `Tables.DropColumnSpec` | streamlitass.py:48 | Dropping a column removes it from the column set. It keeps the number of rows, and every other cell of every row is unchanged. |
| `WriteBack.Frame.Drop` | streamlitass.py:48 | The in-place drop leaves the frame equal to the dropped copy of its old contents. |
| `WriteBack.WithoutStorageIdSpec` | streamlitass.py:46-48 | After the identifier pass, the columns are the old ones minus `_id`. Passing again changes nothing. |
| `WriteBack.DropStorageIds` | streamlitass.py:46-48 | After the loop, every listed frame holds its old contents without `_id` (dropped once even if listed twice), and none has an `_id` column. |
| `Tables.SameFrameSpec` | streamlitass.py:150 | `equals` holds exactly when the two tables have the same columns, the same number of rows, and the same column of cells under every column name. Equal tables satisfy it, it is symmetric, and a missing value matches a missing value. |
| `WriteBack.UpdatesFor` | streamlitass.py:145-159 | No update when the filtered table is empty or the edited table equals it cell by cell (`SameFrame`, with a missing value matching a missing value). Otherwise, one update per edited row in row order, whose `$set` is the whole row and whose key is the stored identifier if `students_df` still had `_id`, else the row's age. If the age is needed and the edited table has no `age` column, it raises before sending anything. |
| `WriteBack.UpdateSetsWholeRow` | streamlitass.py:158 | For a row that carries exactly its table's columns, the update's `$set` is that row itself. |
| `WriteBack.EditRound` | streamlitass.py:46-159 | In the script's order (drop `_id`, filter, write back), the students, courses and enrollments frames each end up as their old contents without `_id`. Nothing is sent when the filtered table is empty or the edit leaves it the same frame. Otherwise, if the edited table has an `age` column, one update is sent per edited row, each matching on `{"age": row.age}` and setting the whole row; if it has rows but no `age` column, `row["age"]` raises before anything is sent. |

## Left out

- The MongoDB connection and the collection fetch (lines 11-27), `st.cache_*` caching, and the spinner with `time.sleep`: I/O and framework plumbing. Tables enter the model as values.
- The login form (lines 33-40), every widget, the raw-data view with its `head(10)` and JSON dump (lines 116-125), the KPI metrics, tabs, charts and the Plotly pie: UI rendering. The widgets' current selections are parameters (`StudentFilter`, `EnrollmentFilter`).
- The average age `round(mean, 1)` (line 133): floating-point arithmetic.
- The date parsing by `pd.to_datetime` (line 171), and its in-place overwrite of the date column: a foreign library call. Dates are modelled as normalised `Date` keys, and a cell that is not a `Date` is treated as a missing date, which `groupby` drops.
- The CSV export (line 207): a library serialiser.
- The storage effect of `update_one`: the model produces the list of operations that would be sent, and no more.
- The `(0, 100)` fallback of the age slider (lines 65-67): unreachable, because `min()` is evaluated first.
- The `students_df.iloc[index]` lookup (line 154): unreachable once `_id` is dropped. `ByStoredId` names the row's position and does not look the identifier up, and pandas' row labels are not modelled.
- The tie order inside `value_counts()`: pandas defines it, so no contract states it (`Aggregates.ValueCounts` happens to list ties in first-seen order).
- pandas dtypes and index labels: `DataFrame.equals` is modelled as `SameFrame`, equality of column sets, row counts and cell values; the model ignores the dtype check that `equals` also makes, and the dtype upcasting done by `iterrows()` is not modelled. Floats are not represented: `Value` has no floating-point case, so a float age cannot be written in the model. A string age is treated as failing the slider comparison, where pandas would raise.
- Selections.DefaultAgeRange: string ages are skipped when the slider bounds are computed, and pandas does not skip them. The model takes min and max over the integer ages only. With mixed ages such as `[20, "x"]`, `min()` at line 65 raises TypeError, but the model returns `Ok((20, 20))`. An all-string column such as `["20", "21"]` gives (20, 21) through `int("20")` in the script, but `Err(NoNumericValue("age"))` in the model. The model leaves out pandas' ordering of mixed object columns and Python's string-to-integer parsing.
