/** The data model: a table is a set of present column names and a sequence
    of records (field name to cell value), the way the dashboard sees a
    DataFrame built from a document collection. */
module Tables {

  /** A cell. `Null` is pandas' missing value (NaN / NaT): a record that
      lacks a field of its table reads as `Null` in that column. A `Date`
      is a timestamp as `pd.to_datetime` leaves it, time of day included,
      normalised to a comparable integer key. */
  datatype Value = Null | Int(i: int) | Str(s: string) | Date(key: int)

  type Record = map<string, Value>

  datatype Table = Table(columns: set<string>, rows: seq<Record>)

  datatype Option<T> = None | Some(value: T)

  /** Why an expression of the script raises instead of producing a value. */
  datatype Failure =
    | MissingColumn(column: string)   // `df[column]` or `row[column]` raises KeyError
    | NoNumericValue(column: string)  // `int(NaN)` raises ValueError

  datatype Result<T> = Ok(value: T) | Err(failure: Failure)

  function Cell(row: Record, col: string): Value {
    if col in row then row[col] else Null
  }

  /** The column `col` as a sequence of cells, one per row. */
  function Column(rows: seq<Record>, col: string): (vs: seq<Value>)
    ensures |vs| == |rows|
    ensures forall i :: 0 <= i < |rows| ==> vs[i] == Cell(rows[i], col)
  {
    if rows == [] then [] else [Cell(rows[0], col)] + Column(rows[1..], col)
  }

  /** `DataFrame.empty`: no rows or no columns. */
  predicate IsEmpty(t: Table) {
    |t.rows| == 0 || t.columns == {}
  }

  /** `a.equals(b)`: the same columns, the same number of rows, and the same
      value in every cell, a missing value matching a missing value in the
      same place. A field written out as `Null` and a field left absent read
      alike, so two records that differ only there are the same frame. */
  predicate SameFrame(a: Table, b: Table) {
    && a.columns == b.columns
    && |a.rows| == |b.rows|
    && forall i, c :: 0 <= i < |a.rows| && c in a.columns ==> Cell(a.rows[i], c) == Cell(b.rows[i], c)
  }

  /** `equals` compares column by column; it is an equivalence that holds
      between equal tables, and it ignores how a missing value is written. */
  lemma SameFrameSpec(a: Table, b: Table)
    ensures SameFrame(a, b) <==>
              a.columns == b.columns && |a.rows| == |b.rows|
              && forall c :: c in a.columns ==> Column(a.rows, c) == Column(b.rows, c)
    ensures a == b ==> SameFrame(a, b)
    ensures SameFrame(a, b) ==> SameFrame(b, a)
  {
    if a.columns == b.columns && |a.rows| == |b.rows| && forall c :: c in a.columns ==> Column(a.rows, c) == Column(b.rows, c) {
      forall i, c | 0 <= i < |a.rows| && c in a.columns ensures Cell(a.rows[i], c) == Cell(b.rows[i], c) {
        assert Column(a.rows, c)[i] == Column(b.rows, c)[i];
      }
    }
    if SameFrame(a, b) {
      forall c | c in a.columns ensures Column(a.rows, c) == Column(b.rows, c) {
        assert forall i :: 0 <= i < |a.rows| ==> Column(a.rows, c)[i] == Column(b.rows, c)[i];
      }
    }
  }

  /** `row.to_dict()` of a row of a table with the given columns. */
  function RowDict(columns: set<string>, row: Record): Record {
    map c | c in columns :: Cell(row, c)
  }

  /** `df.drop(columns=[c])`. */
  function DropColumn(t: Table, c: string): Table {
    Table(t.columns - {c}, seq(|t.rows|, i requires 0 <= i < |t.rows| => t.rows[i] - {c}))
  }

  lemma DropColumnSpec(t: Table, c: string)
    ensures DropColumn(t, c).columns == t.columns - {c}
    ensures |DropColumn(t, c).rows| == |t.rows|
    ensures forall i, col :: 0 <= i < |t.rows| ==>
              Cell(DropColumn(t, c).rows[i], col) == if col == c then Null else Cell(t.rows[i], col)
  {
  }
}
