/**
 * The small slice of a pandas DataFrame the trigger routines rely on: named
 * columns in order, rows of cells, lookup of a cell by column name, and
 * `df.insert(0, name, scalar)`.
 */
module Frames {
  import opened Outcomes

  /** One table cell: a number, a boolean, a string, or a missing value (NaN). */
  datatype Cell = Num(x: real) | Flag(b: bool) | Text(s: string) | Missing

  datatype Table = Table(columns: seq<string>, rows: seq<seq<Cell>>)

  /** `pd.DataFrame()`: no columns and no rows. */
  const Empty := Table([], [])

  /** Every row has one cell per column. */
  predicate WellFormed(t: Table) {
    forall r :: r in t.rows ==> |r| == |t.columns|
  }

  /** Position of the first column called `name`, if any. */
  function ColumnIndex(columns: seq<string>, name: string): (k: Option<nat>)
    ensures k.Some? ==> k.value < |columns| && columns[k.value] == name
    ensures k.Some? ==> forall j :: 0 <= j < k.value ==> columns[j] != name
    ensures k.None? <==> name !in columns
  {
    if columns == [] then None
    else if columns[0] == name then Some(0)
    else match ColumnIndex(columns[1..], name)
      case None => None
      case Some(j) => Some(j + 1)
  }

  /** No column name occurs twice. */
  predicate Distinct(columns: seq<string>) {
    forall i, j :: 0 <= i < j < |columns| ==> columns[i] != columns[j]
  }

  /** The cell of the first row under column `name`, if the table has both. */
  function Lookup(t: Table, name: string): Option<Cell>
  {
    match ColumnIndex(t.columns, name)
    case None => None
    case Some(k) =>
      if |t.rows| > 0 && k < |t.rows[0]| then Some(t.rows[0][k]) else None
  }

  /**
   * `df.insert(0, name, value)` with a scalar value: a new first column that
   * holds `value` in every row. pandas refuses a name the frame already has.
   */
  function InsertFirst(t: Table, name: string, value: Cell): (r: Outcome<Table>)
    ensures r.Raised? <==> name in t.columns
    ensures r.Ok? ==> |r.value.columns| == |t.columns| + 1 && r.value.columns[0] == name
    ensures r.Ok? ==> |r.value.rows| == |t.rows|
    ensures r.Ok? && WellFormed(t) ==> WellFormed(r.value)
  {
    if name in t.columns then Raised(ValueError("cannot insert " + name + ", already exists"))
    else Ok(Table([name] + t.columns, seq(|t.rows|, i requires 0 <= i < |t.rows| => [value] + t.rows[i])))
  }

  /**
   * After the insert, the new column reads `value` and every other column
   * reads what it read before.
   */
  lemma {:induction false} InsertFirstLookup(t: Table, name: string, value: Cell, other: string)
    requires WellFormed(t) && |t.rows| > 0
    requires InsertFirst(t, name, value).Ok?
    ensures Lookup(InsertFirst(t, name, value).value, name) == Some(value)
    ensures other != name ==> Lookup(InsertFirst(t, name, value).value, other) == Lookup(t, other)
  {
    var u := InsertFirst(t, name, value).value;
    assert u.columns[1..] == t.columns;
    assert u.rows[0] == [value] + t.rows[0];
    if other != name {
      match ColumnIndex(t.columns, other)
      case None =>
      case Some(k) =>
        assert ColumnIndex(u.columns, other) == Some(k + 1);
    }
  }
}
