/**
 * `get_data`: turn the export endpoint's JSON answer into the one-row trigger
 * summary table shown on the dashboard.
 *
 * The HTTP exchange is a parameter (`Response`). The JSON object arrives as
 * it looks after `pd.json_normalize`: an ordered list of top-level fields,
 * each either a scalar or a list of records whose own leaves are already
 * joined with `_`. Forecast, threshold and accuracy values are reals.
 */
module TriggerRow {
  import opened Outcomes
  import opened Decimal
  import opened Frames

  /** One element of a list-valued field, keyed by its flattened leaf names. */
  type Record = map<string, real>

  datatype FieldValue = Scalar(x: real) | Nested(records: seq<Record>)

  datatype Field = Field(name: string, value: FieldValue)

  /** What the export request returned: the status code and the parsed body. */
  datatype Response = Response(status: int, fields: seq<Field>)

  /**
   * The arguments of `get_data` that reach the row. The others (maproom,
   * season, predictand, year, credentials, ...) only shape the request, and
   * `toolLink` is the already-built design-tool hyperlink.
   */
  datatype Query = Query(predictor: string, issueMonth: int, freq: int, protocol: int, toolLink: string)

  /** The exploded record that stands for the current forecast. */
  const RepresentativeIndex: nat := 1

  const ForecastThreshold := "Forecast Threshold"
  const ForecastAccuracy := "Forecast Accuracy"

  function Max(a: nat, b: nat): nat { if a < b then b else a }

  // ---------------------------------------------------------------------------
  // Flattening: split scalar fields from exploded list fields.
  // ---------------------------------------------------------------------------

  /** The scalar fields, in their original order, as (name, value) pairs. */
  function ScalarFields(fields: seq<Field>): seq<(string, real)>
  {
    if fields == [] then []
    else
      var last := fields[|fields| - 1];
      ScalarFields(fields[..|fields| - 1])
        + (if last.value.Scalar? then [(last.name, last.value.x)] else [])
  }

  function RowAt(rows: seq<Record>, i: nat): Record
  {
    if i < |rows| then rows[i] else map[]
  }

  /**
   * How many rows the frame has once a list field with `count` records is
   * exploded and concatenated to a frame of `rows` expanded rows. The list
   * sits in row 0 only: every later row holds a missing value there, which
   * `explode` keeps as a row of its own, so the exploded records are
   * followed by `rows - 1` empty ones.
   */
  function MergedLength(rows: nat, count: nat): nat
  {
    if rows == 0 || count == 0 then Max(rows, count) else rows + count - 1
  }

  /**
   * `pd.concat([rows, records], axis=1)` after the explode: row `i` holds the
   * columns of both sides, rows past either side's end hold nothing of it.
   */
  function MergeRows(rows: seq<Record>, records: seq<Record>): seq<Record>
  {
    var n := MergedLength(|rows|, |records|);
    seq(n, i requires 0 <= i < n => RowAt(rows, i) + RowAt(records, i))
  }

  /** The rows contributed by every list-valued field, side by side. */
  function ExpandedRows(fields: seq<Field>): seq<Record>
  {
    if fields == [] then []
    else
      var last := fields[|fields| - 1];
      var rows := ExpandedRows(fields[..|fields| - 1]);
      if last.value.Nested? then MergeRows(rows, last.value.records) else rows
  }

  /**
   * The flatten loop of `get_data`: a list-valued column is exploded and
   * concatenated to the frame, any other column is remembered as non-nested.
   */
  method Flatten(fields: seq<Field>) returns (scalars: seq<(string, real)>, rows: seq<Record>)
    ensures scalars == ScalarFields(fields)
    ensures rows == ExpandedRows(fields)
  {
    scalars, rows := [], [];
    var i := 0;
    while i < |fields|
      invariant 0 <= i <= |fields|
      invariant scalars == ScalarFields(fields[..i])
      invariant rows == ExpandedRows(fields[..i])
    {
      var field := fields[i];
      match field.value {
        case Nested(records) =>
          rows := MergeRows(rows, records);
        case Scalar(x) =>
          scalars := scalars + [(field.name, x)];
      }
      assert fields[..i + 1][..i] == fields[..i];
      i := i + 1;
    }
    assert fields[..i] == fields;
  }

  /**
   * A (name, value) pair is among the scalar fields exactly when the answer
   * has a field of that name holding that scalar.
   */
  lemma {:induction false} ScalarFieldsExact(fields: seq<Field>, name: string, x: real)
    ensures (name, x) in ScalarFields(fields) <==> Field(name, Scalar(x)) in fields
    decreases |fields|
  {
    if fields != [] {
      var init := fields[..|fields| - 1];
      ScalarFieldsExact(init, name, x);
      assert fields == init + [fields[|fields| - 1]];
    }
  }

  /** How many records the list-valued fields hold together. */
  function ListRecords(fields: seq<Field>): nat
  {
    if fields == [] then 0
    else
      var last := fields[|fields| - 1];
      ListRecords(fields[..|fields| - 1]) + (if last.value.Nested? then |last.value.records| else 0)
  }

  /** How many list-valued fields hold at least one record. */
  function NonEmptyLists(fields: seq<Field>): nat
  {
    if fields == [] then 0
    else
      var last := fields[|fields| - 1];
      NonEmptyLists(fields[..|fields| - 1]) + (if last.value.Nested? && last.value.records != [] then 1 else 0)
  }

  /**
   * The expanded table has every record of every list-valued field, less one
   * row for each such field after the first, as the first row of each
   * exploded field is shared; with no records at all it is empty.
   */
  lemma {:induction false} ExpandedRowsLength(fields: seq<Field>)
    ensures NonEmptyLists(fields) <= ListRecords(fields)
    ensures NonEmptyLists(fields) == 0 ==> ListRecords(fields) == 0
    ensures |ExpandedRows(fields)| ==
      if NonEmptyLists(fields) == 0 then 0 else ListRecords(fields) - NonEmptyLists(fields) + 1
    decreases |fields|
  {
    if fields != [] {
      var init := fields[..|fields| - 1];
      var last := fields[|fields| - 1];
      ExpandedRowsLength(init);
      if last.value.Nested? {
        var rows := ExpandedRows(init);
        var recs := last.value.records;
        assert |ExpandedRows(fields)| == MergedLength(|rows|, |recs|);
        assert ListRecords(fields) == ListRecords(init) + |recs|;
        assert NonEmptyLists(fields) == NonEmptyLists(init) + (if recs != [] then 1 else 0);
        if |rows| == 0 {
          assert NonEmptyLists(init) == 0;
          assert |ExpandedRows(fields)| == |recs|;
        } else if recs == [] {
          assert |ExpandedRows(fields)| == |rows|;
        } else {
          assert |ExpandedRows(fields)| == |rows| + |recs| - 1;
        }
      } else {
        assert ListRecords(fields) == ListRecords(init);
        assert NonEmptyLists(fields) == NonEmptyLists(init);
      }
    }
  }

  /**
   * Row `i` of the expanded table exists whenever some list-valued field has
   * a record at position `i`, and it holds column `k` exactly when one such
   * record carries `k`; the rows past the longest list hold nothing.
   */
  lemma {:induction false} ExpandedRowsColumns(fields: seq<Field>, i: nat, k: string)
    ensures (exists j :: 0 <= j < |fields| && fields[j].value.Nested? && i < |fields[j].value.records|) ==>
      i < |ExpandedRows(fields)|
    ensures i < |ExpandedRows(fields)| ==>
      (k in ExpandedRows(fields)[i] <==>
        exists j :: 0 <= j < |fields| && fields[j].value.Nested? && i < |fields[j].value.records|
          && k in fields[j].value.records[i])
    decreases |fields|
  {
    if fields != [] {
      var n := |fields| - 1;
      var init := fields[..n];
      ExpandedRowsColumns(init, i, k);
      forall j | 0 <= j < n ensures fields[j] == init[j] { }
      if fields[n].value.Nested? {
        var rows := ExpandedRows(init);
        var recs := fields[n].value.records;
        if i < |MergeRows(rows, recs)| {
          assert MergeRows(rows, recs)[i] == RowAt(rows, i) + RowAt(recs, i);
        }
      }
    }
  }

  /** With a single list-valued field, the expanded table is its records. */
  lemma {:induction false} ExpandedRowsSingle(fields: seq<Field>, j: nat)
    requires j < |fields| && fields[j].value.Nested?
    requires forall i :: 0 <= i < |fields| && i != j ==> fields[i].value.Scalar?
    ensures ExpandedRows(fields) == fields[j].value.records
    decreases |fields|
  {
    var n := |fields| - 1;
    var init := fields[..n];
    if j < n {
      ExpandedRowsSingle(init, j);
    } else {
      NoNestedNoRows(init);
      var recs := fields[j].value.records;
      forall i | 0 <= i < |recs| ensures MergeRows([], recs)[i] == recs[i] {
        assert RowAt([], i) == map[];
        assert map[] + recs[i] == recs[i];
      }
    }
  }

  lemma {:induction false} NoNestedNoRows(fields: seq<Field>)
    requires forall i :: 0 <= i < |fields| ==> fields[i].value.Scalar?
    ensures ExpandedRows(fields) == []
    decreases |fields|
  {
    if fields != [] {
      NoNestedNoRows(fields[..|fields| - 1]);
    }
  }

  // ---------------------------------------------------------------------------
  // The two metrics kept from the scalar fields.
  // ---------------------------------------------------------------------------

  /** The renaming applied to the kept scalar names. */
  function Rename(name: string): string
  {
    if name == "threshold" then ForecastThreshold
    else if name == "skill.accuracy" then ForecastAccuracy
    else name
  }

  /**
   * Only the first two scalar fields survive, renamed, as a dictionary; when
   * both rename to the same key the second one wins (`to_dict`).
   */
  function Metrics(scalars: seq<(string, real)>): map<string, real>
  {
    if |scalars| == 0 then map[]
    else if |scalars| == 1 then map[Rename(scalars[0].0) := scalars[0].1]
    else map[Rename(scalars[0].0) := scalars[0].1][Rename(scalars[1].0) := scalars[1].1]
  }

  /**
   * A metric exists exactly when one of the first two scalar fields renames
   * to it; when the first two are `threshold` and `skill.accuracy`, in either
   * order, their values become the threshold and the accuracy.
   */
  lemma MetricsOfFirstTwo(scalars: seq<(string, real)>, k: string)
    ensures k in Metrics(scalars) <==> exists j :: 0 <= j < |scalars| && j < 2 && Rename(scalars[j].0) == k
    ensures |scalars| >= 2 && {scalars[0].0, scalars[1].0} == {"threshold", "skill.accuracy"} ==>
      var th := if scalars[0].0 == "threshold" then scalars[0].1 else scalars[1].1;
      var acc := if scalars[0].0 == "threshold" then scalars[1].1 else scalars[0].1;
      Metrics(scalars) == map[ForecastThreshold := th, ForecastAccuracy := acc]
  {
    if |scalars| >= 2 && {scalars[0].0, scalars[1].0} == {"threshold", "skill.accuracy"} {
      assert scalars[0].0 in {scalars[0].0, scalars[1].0};
      assert scalars[1].0 in {scalars[0].0, scalars[1].0};
      assert "threshold" in {scalars[0].0, scalars[1].0};
    }
  }

  // ---------------------------------------------------------------------------
  // Derived trigger fields and the issue month.
  // ---------------------------------------------------------------------------

  /** The column `name` of the expanded table exists in some row. */
  predicate HasColumn(rows: seq<Record>, name: string)
  {
    exists i :: 0 <= i < |rows| && name in rows[i]
  }

  /** The predictor value of the representative record; None stands for NaN. */
  function ForecastAt(rows: seq<Record>, predictor: string): Option<real>
    requires |rows| > RepresentativeIndex
  {
    var rec := rows[RepresentativeIndex];
    if predictor in rec then Some(rec[predictor]) else None
  }

  /** `forecast > threshold` on a pandas value: NaN compares false. */
  function Exceeds(forecast: Option<real>, threshold: real): bool
  {
    forecast.Some? && forecast.value > threshold
  }

  const MonthMapping: map<int, string> := map[
    0 := "Jan", 1 := "Feb", 2 := "Mar", 3 := "Apr", 4 := "May", 5 := "Jun",
    6 := "Jul", 7 := "Aug", 8 := "Sep", 9 := "Oct", 10 := "Nov", 11 := "Dec"]

  /** Calendar order of the month abbreviations, a reference for `MonthName`. */
  const CalendarMonths: seq<string> :=
    ["Jan", "Feb", "Mar", "Apr", "May", "Jun", "Jul", "Aug", "Sep", "Oct", "Nov", "Dec"]

  /** `Series.map(month_mapping)`: an index without a mapping gives NaN (None). */
  function MonthName(index: int): (r: Option<string>)
    ensures r.Some? <==> 0 <= index < 12
    ensures r.Some? ==> r.value == CalendarMonths[index]
  {
    if index in MonthMapping then Some(MonthMapping[index]) else None
  }

  /** Different issue months never share a name. */
  lemma MonthNameInjective(a: int, b: int)
    requires MonthName(a).Some? && MonthName(a) == MonthName(b)
    ensures a == b
  {
  }

  function NumOrMissing(v: Option<real>): Cell
  {
    if v.Some? then Num(v.value) else Missing
  }

  /**
   * A column of `combined_df`: a kept metric, under its renamed scalar name,
   * or one of the columns `get_data` derives. `Label` is the column's text.
   */
  datatype Column =
    | Metric(name: string)
    | Forecast | Triggered | TriggerDifference | AdjustedThreshold | TriggeredAdjusted
    | FrequencyPct | AccuracyPct | ThresholdProtocol | IssueMonth | DesignToolUrl

  function Label(column: Column): string
  {
    match column
    case Metric(name) => name
    case Forecast => "forecast"
    case Triggered => "triggered"
    case TriggerDifference => "trigger difference"
    case AdjustedThreshold => "Adjusted Forecast Threshold"
    case TriggeredAdjusted => "Triggered Adjusted"
    case FrequencyPct => "Frequency (%)"
    case AccuracyPct => "Forecast Accuracy (%)"
    case ThresholdProtocol => "Threshold Protocol"
    case IssueMonth => "Issue Month"
    case DesignToolUrl => "Design Tool URL"
  }

  /**
   * The columns of `combined_df`: the kept metrics (the transposed
   * non-nested frame), the derived trigger columns of the forecast frame,
   * and the display columns added afterwards.
   */
  function CombinedColumns(metrics: map<string, real>): set<Column>
  {
    (set k | k in metrics :: Metric(k))
      + {Forecast, Triggered, TriggerDifference, AdjustedThreshold, TriggeredAdjusted}
      + {FrequencyPct, AccuracyPct, ThresholdProtocol, IssueMonth, DesignToolUrl}
  }

  /** The cell of `combined_df` in `column`. */
  function CombinedCell(metrics: map<string, real>, forecast: Option<real>, q: Query, column: Column): Cell
    requires ForecastThreshold in metrics && ForecastAccuracy in metrics
    requires column.Metric? ==> column.name in metrics
  {
    var threshold := metrics[ForecastThreshold];
    match column
    case Metric(k) => Num(metrics[k])
    case Forecast => NumOrMissing(forecast)
    case Triggered => Flag(Exceeds(forecast, threshold))
    case TriggerDifference => if forecast.Some? then Num(forecast.value - threshold) else Missing
    case AdjustedThreshold => Num(threshold + q.protocol as real)
    case TriggeredAdjusted => Flag(Exceeds(forecast, threshold))
    case FrequencyPct => Text(IntToString(q.freq) + "%")
    case AccuracyPct => Num(metrics[ForecastAccuracy] * 100.0)
    case ThresholdProtocol => Text(IntToString(q.protocol))
    case IssueMonth => if MonthName(q.issueMonth).Some? then Text(MonthName(q.issueMonth).value) else Missing
    case DesignToolUrl => Text(q.toolLink)
  }

  /** `combined_df` before the column selection, as a column-to-cell dictionary. */
  function Combined(metrics: map<string, real>, forecast: Option<real>, q: Query): map<Column, Cell>
    requires ForecastThreshold in metrics && ForecastAccuracy in metrics
  {
    map c | c in CombinedColumns(metrics) :: CombinedCell(metrics, forecast, q, c)
  }

  /** The columns kept, in order, before the final renaming. */
  function SelectedColumns(protocol: int): seq<Column>
  {
    if protocol == 0 then
      [FrequencyPct, IssueMonth, Forecast, Metric(ForecastThreshold), TriggerDifference,
       AccuracyPct, Triggered, DesignToolUrl]
    else
      [FrequencyPct, IssueMonth, Forecast, Metric(ForecastThreshold), TriggerDifference,
       AccuracyPct, Triggered, AdjustedThreshold, ThresholdProtocol, TriggeredAdjusted, DesignToolUrl]
  }

  /** The final renaming of three column labels. */
  function OutputName(text: string): string
  {
    if text == "forecast" then "Forecast"
    else if text == "triggered" then "Triggered"
    else if text == "trigger difference" then "Trigger Difference"
    else text
  }

  /** Every column the selection asks for is present in `combined_df`. */
  lemma CombinedKeys(metrics: map<string, real>, forecast: Option<real>, q: Query)
    requires ForecastThreshold in metrics && ForecastAccuracy in metrics
    ensures forall c :: c in SelectedColumns(q.protocol) ==> c in Combined(metrics, forecast, q)
  {
  }

  /** The forecast and threshold cells of `combined_df`. */
  lemma CombinedForecastCells(metrics: map<string, real>, forecast: Option<real>, q: Query)
    requires ForecastThreshold in metrics && ForecastAccuracy in metrics
    ensures var c := Combined(metrics, forecast, q);
      && c[Forecast] == NumOrMissing(forecast)
      && c[Metric(ForecastThreshold)] == Num(metrics[ForecastThreshold])
  {
  }

  /** The two trigger flags of `combined_df`, both against the unadjusted threshold. */
  lemma CombinedTriggerFlags(metrics: map<string, real>, forecast: Option<real>, q: Query)
    requires ForecastThreshold in metrics && ForecastAccuracy in metrics
    ensures var c := Combined(metrics, forecast, q);
      && c[Triggered] == Flag(Exceeds(forecast, metrics[ForecastThreshold]))
      && c[TriggeredAdjusted] == Flag(Exceeds(forecast, metrics[ForecastThreshold]))
  {
  }

  /** The difference and adjusted-threshold cells of `combined_df`. */
  lemma CombinedDifferences(metrics: map<string, real>, forecast: Option<real>, q: Query)
    requires ForecastThreshold in metrics && ForecastAccuracy in metrics
    ensures var c := Combined(metrics, forecast, q);
      var threshold := metrics[ForecastThreshold];
      && c[TriggerDifference] == (if forecast.Some? then Num(forecast.value - threshold) else Missing)
      && c[AdjustedThreshold] == Num(threshold + q.protocol as real)
  {
  }

  /** The display cells of `combined_df`. */
  lemma CombinedDisplayCells(metrics: map<string, real>, forecast: Option<real>, q: Query)
    requires ForecastThreshold in metrics && ForecastAccuracy in metrics
    ensures var c := Combined(metrics, forecast, q);
      && c[FrequencyPct] == Text(IntToString(q.freq) + "%")
      && c[AccuracyPct] == Num(metrics[ForecastAccuracy] * 100.0)
      && c[ThresholdProtocol] == Text(IntToString(q.protocol))
      && c[IssueMonth] == (if MonthName(q.issueMonth).Some? then Text(MonthName(q.issueMonth).value) else Missing)
      && c[DesignToolUrl] == Text(q.toolLink)
  {
  }

  /** The selected columns under their final names. */
  function OutputColumns(protocol: int): seq<string>
  {
    var columns := SelectedColumns(protocol);
    seq(|columns|, i requires 0 <= i < |columns| => OutputName(Label(columns[i])))
  }

  /** `combined_df[desired_columns]` followed by the renaming. */
  function SelectColumns(combined: map<Column, Cell>, protocol: int): Table
    requires forall c :: c in SelectedColumns(protocol) ==> c in combined
  {
    var columns := SelectedColumns(protocol);
    Table(OutputColumns(protocol), [seq(|columns|, i requires 0 <= i < |columns| => combined[columns[i]])])
  }

  /** The one-row summary table, once every lookup has succeeded. */
  function SummaryRow(metrics: map<string, real>, forecast: Option<real>, q: Query): Table
    requires ForecastThreshold in metrics && ForecastAccuracy in metrics
  {
    CombinedKeys(metrics, forecast, q);
    SelectColumns(Combined(metrics, forecast, q), q.protocol)
  }

  /**
   * Everything `get_data` does after a 200 answer has been flattened, with
   * the exceptions pandas raises in the order Python evaluates them.
   */
  function Derive(scalars: seq<(string, real)>, rows: seq<Record>, q: Query): Outcome<Table>
  {
    var metrics := Metrics(scalars);
    var scalarNames := set p | p in scalars :: p.0;
    if q.predictor in scalarNames || !HasColumn(rows, q.predictor) then
      // `df[predictor]` after the non-nested columns were dropped
      Raised(KeyError(q.predictor))
    else if ForecastThreshold !in metrics then
      Raised(KeyError(ForecastThreshold))
    else if |rows| <= RepresentativeIndex then
      // `.iloc[1, :]`
      Raised(IndexError)
    else if ForecastAccuracy !in metrics then
      Raised(KeyError(ForecastAccuracy))
    else
      Ok(SummaryRow(metrics, ForecastAt(rows, q.predictor), q))
  }

  /** `get_data` as a function of the response: a non-200 status gives an empty table. */
  function FetchRow(response: Response, q: Query): Outcome<Table>
  {
    if response.status != 200 then Ok(Empty)
    else Derive(ScalarFields(response.fields), ExpandedRows(response.fields), q)
  }

  /** `get_data`, with the flatten loop run as in the source. */
  method GetData(response: Response, q: Query) returns (r: Outcome<Table>)
    ensures r == FetchRow(response, q)
  {
    if response.status != 200 {
      return Ok(Empty);
    }
    var scalars, rows := Flatten(response.fields);
    r := Derive(scalars, rows, q);
  }

  // ---------------------------------------------------------------------------
  // What the row promises.
  // ---------------------------------------------------------------------------

  const Schema8: seq<string> :=
    ["Frequency (%)", "Issue Month", "Forecast", "Forecast Threshold", "Trigger Difference",
     "Forecast Accuracy (%)", "Triggered", "Design Tool URL"]

  const Schema11: seq<string> :=
    ["Frequency (%)", "Issue Month", "Forecast", "Forecast Threshold", "Trigger Difference",
     "Forecast Accuracy (%)", "Triggered", "Adjusted Forecast Threshold",
     "Threshold Protocol", "Triggered Adjusted", "Design Tool URL"]

  lemma SchemasDistinct()
    ensures Distinct(Schema8) && Distinct(Schema11)
  {
  }

  /**
   * After the renaming, the selected columns are exactly the 8-column schema
   * when the protocol is 0 and the 11-column schema otherwise.
   */
  lemma OutputColumnsSchema(protocol: int)
    ensures OutputColumns(protocol) == (if protocol == 0 then Schema8 else Schema11)
  {
    var columns := OutputColumns(protocol);
    if protocol == 0 {
      forall i | 0 <= i < 8 ensures columns[i] == Schema8[i] { }
    } else {
      forall i | 0 <= i < 11 ensures columns[i] == Schema11[i] { }
    }
  }

  function SchemaFor(protocol: int): seq<string>
  {
    if protocol == 0 then Schema8 else Schema11
  }

  /**
   * The summary row spelled out cell by cell in schema order: frequency
   * followed by `%`, issue-month name, forecast, threshold, forecast minus
   * threshold, accuracy times 100, forecast > threshold, and, unless the
   * protocol is 0, threshold + protocol, the protocol as text and the same
   * comparison again; the design-tool link last.
   */
  function SpelledRow(threshold: real, accuracy: real, forecast: Option<real>, q: Query): seq<Cell>
  {
    var exceeds := forecast.Some? && forecast.value > threshold;
    var common := [
      Text(IntToString(q.freq) + "%"),
      if 0 <= q.issueMonth < 12 then Text(CalendarMonths[q.issueMonth]) else Missing,
      if forecast.Some? then Num(forecast.value) else Missing,
      Num(threshold),
      if forecast.Some? then Num(forecast.value - threshold) else Missing,
      Num(accuracy * 100.0),
      Flag(exceeds)];
    if q.protocol == 0 then common + [Text(q.toolLink)]
    else common + [Num(threshold + q.protocol as real), Text(IntToString(q.protocol)), Flag(exceeds), Text(q.toolLink)]
  }

  lemma SummaryRowColumns(metrics: map<string, real>, forecast: Option<real>, q: Query)
    requires ForecastThreshold in metrics && ForecastAccuracy in metrics
    ensures SummaryRow(metrics, forecast, q).columns == SchemaFor(q.protocol)
    ensures |SummaryRow(metrics, forecast, q).rows| == 1
  {
    OutputColumnsSchema(q.protocol);
  }

  /** Cell `k` of the summary row is the cell of `combined_df` under the `k`-th selected column. */
  lemma SummaryRowAt(metrics: map<string, real>, forecast: Option<real>, q: Query, k: nat)
    requires ForecastThreshold in metrics && ForecastAccuracy in metrics
    requires k < |SelectedColumns(q.protocol)|
    ensures var row := SummaryRow(metrics, forecast, q).rows[0];
      && |row| == |SelectedColumns(q.protocol)|
      && row[k] == Combined(metrics, forecast, q)[SelectedColumns(q.protocol)[k]]
  {
    CombinedKeys(metrics, forecast, q);
  }

  /** The spelled-out row has one cell per selected column. */
  lemma SpelledRowLength(threshold: real, accuracy: real, forecast: Option<real>, q: Query)
    ensures |SpelledRow(threshold, accuracy, forecast, q)| == |SelectedColumns(q.protocol)|
  {
  }

  lemma SummaryRowFrequencyCell(metrics: map<string, real>, forecast: Option<real>, q: Query)
    requires ForecastThreshold in metrics && ForecastAccuracy in metrics
    ensures var row := SummaryRow(metrics, forecast, q).rows[0];
      var spelled := SpelledRow(metrics[ForecastThreshold], metrics[ForecastAccuracy], forecast, q);
      |row| == |spelled| && row[0] == spelled[0]
  {
    SpelledRowLength(metrics[ForecastThreshold], metrics[ForecastAccuracy], forecast, q);
    CombinedDisplayCells(metrics, forecast, q);
    SummaryRowAt(metrics, forecast, q, 0);
  }

  lemma SummaryRowMonthCell(metrics: map<string, real>, forecast: Option<real>, q: Query)
    requires ForecastThreshold in metrics && ForecastAccuracy in metrics
    ensures var row := SummaryRow(metrics, forecast, q).rows[0];
      var spelled := SpelledRow(metrics[ForecastThreshold], metrics[ForecastAccuracy], forecast, q);
      |row| == |spelled| && row[1] == spelled[1]
  {
    SpelledRowLength(metrics[ForecastThreshold], metrics[ForecastAccuracy], forecast, q);
    CombinedDisplayCells(metrics, forecast, q);
    SummaryRowAt(metrics, forecast, q, 1);
  }

  lemma SummaryRowForecastCells(metrics: map<string, real>, forecast: Option<real>, q: Query)
    requires ForecastThreshold in metrics && ForecastAccuracy in metrics
    ensures var row := SummaryRow(metrics, forecast, q).rows[0];
      var spelled := SpelledRow(metrics[ForecastThreshold], metrics[ForecastAccuracy], forecast, q);
      |row| == |spelled| && row[2] == spelled[2] && row[3] == spelled[3]
  {
    CombinedForecastCells(metrics, forecast, q);
    SummaryRowAt(metrics, forecast, q, 2);
    SummaryRowAt(metrics, forecast, q, 3);
  }

  lemma SummaryRowDifferenceCell(metrics: map<string, real>, forecast: Option<real>, q: Query)
    requires ForecastThreshold in metrics && ForecastAccuracy in metrics
    ensures var row := SummaryRow(metrics, forecast, q).rows[0];
      var spelled := SpelledRow(metrics[ForecastThreshold], metrics[ForecastAccuracy], forecast, q);
      |row| == |spelled| && row[4] == spelled[4]
  {
    CombinedDifferences(metrics, forecast, q);
    SummaryRowAt(metrics, forecast, q, 4);
  }

  lemma SummaryRowMiddleCells(metrics: map<string, real>, forecast: Option<real>, q: Query)
    requires ForecastThreshold in metrics && ForecastAccuracy in metrics
    ensures var row := SummaryRow(metrics, forecast, q).rows[0];
      var spelled := SpelledRow(metrics[ForecastThreshold], metrics[ForecastAccuracy], forecast, q);
      |row| == |spelled| && row[5] == spelled[5] && row[6] == spelled[6]
  {
    CombinedTriggerFlags(metrics, forecast, q);
    CombinedDisplayCells(metrics, forecast, q);
    SummaryRowAt(metrics, forecast, q, 5);
    SummaryRowAt(metrics, forecast, q, 6);
  }

  lemma SummaryRowLastCells(metrics: map<string, real>, forecast: Option<real>, q: Query)
    requires ForecastThreshold in metrics && ForecastAccuracy in metrics
    ensures var row := SummaryRow(metrics, forecast, q).rows[0];
      var spelled := SpelledRow(metrics[ForecastThreshold], metrics[ForecastAccuracy], forecast, q);
      |row| == |spelled| && forall k :: 7 <= k < |row| ==> row[k] == spelled[k]
  {
    SummaryRowAt(metrics, forecast, q, 7);
    if q.protocol != 0 {
      CombinedTriggerFlags(metrics, forecast, q);
      CombinedDifferences(metrics, forecast, q);
      CombinedDisplayCells(metrics, forecast, q);
      SummaryRowAt(metrics, forecast, q, 8);
      SummaryRowAt(metrics, forecast, q, 9);
      SummaryRowAt(metrics, forecast, q, 10);
    } else {
      CombinedDisplayCells(metrics, forecast, q);
    }
  }

  /** The summary row is the spelled-out row under the schema of its protocol. */
  lemma SummaryRowSpelled(metrics: map<string, real>, forecast: Option<real>, q: Query)
    requires ForecastThreshold in metrics && ForecastAccuracy in metrics
    ensures SummaryRow(metrics, forecast, q)
      == Table(SchemaFor(q.protocol), [SpelledRow(metrics[ForecastThreshold], metrics[ForecastAccuracy], forecast, q)])
  {
    var t := SummaryRow(metrics, forecast, q);
    var spelled := SpelledRow(metrics[ForecastThreshold], metrics[ForecastAccuracy], forecast, q);
    SummaryRowColumns(metrics, forecast, q);
    SummaryRowFrequencyCell(metrics, forecast, q);
    SummaryRowMonthCell(metrics, forecast, q);
    SummaryRowForecastCells(metrics, forecast, q);
    SummaryRowDifferenceCell(metrics, forecast, q);
    SummaryRowMiddleCells(metrics, forecast, q);
    SummaryRowLastCells(metrics, forecast, q);
    assert t.rows[0] == spelled;
    assert t.rows == [spelled];
  }

  /**
   * What a 200 answer that yields a table yields: at least two exploded
   * rows, a threshold and an accuracy among the first two scalar fields, and
   * the spelled-out row of those with the predictor of exploded record 1 as
   * forecast (missing when record 1 lacks it).
   */
  lemma FetchRowSpelled(response: Response, q: Query)
    requires response.status == 200 && FetchRow(response, q).Ok?
    ensures var metrics := Metrics(ScalarFields(response.fields));
      var rows := ExpandedRows(response.fields);
      && |rows| >= 2 && ForecastThreshold in metrics && ForecastAccuracy in metrics
      && var forecast := if q.predictor in rows[1] then Some(rows[1][q.predictor]) else None;
      && FetchRow(response, q).value == Table(SchemaFor(q.protocol),
           [SpelledRow(metrics[ForecastThreshold], metrics[ForecastAccuracy], forecast, q)])
  {
    var metrics := Metrics(ScalarFields(response.fields));
    var rows := ExpandedRows(response.fields);
    SummaryRowSpelled(metrics, ForecastAt(rows, q.predictor), q);
  }

  /**
   * A 200 answer that yields a table yields one row under the 8-column
   * schema when the protocol is 0 and the 11-column schema otherwise.
   */
  lemma FetchRowSchema(response: Response, q: Query)
    requires response.status == 200 && FetchRow(response, q).Ok?
    ensures var t := FetchRow(response, q).value;
      && t.columns == (if q.protocol == 0 then Schema8 else Schema11)
      && |t.rows| == 1 && WellFormed(t)
  {
    FetchRowSpelled(response, q);
  }

  /**
   * `Triggered` is the strict comparison forecast > threshold, so a forecast
   * equal to the threshold (or missing) never triggers; and under the
   * 11-column schema `Triggered Adjusted` always equals `Triggered`, because
   * both compare against the unadjusted threshold.
   */
  lemma FetchRowTriggered(response: Response, q: Query)
    requires response.status == 200 && FetchRow(response, q).Ok?
    ensures var t := FetchRow(response, q).value;
      var metrics := Metrics(ScalarFields(response.fields));
      var rows := ExpandedRows(response.fields);
      && |rows| >= 2 && ForecastThreshold in metrics
      && t.columns[6] == "Triggered"
      && (t.rows[0][6] == Flag(true) <==>
            q.predictor in rows[1] && rows[1][q.predictor] > metrics[ForecastThreshold])
      && (q.protocol != 0 ==> t.columns[9] == "Triggered Adjusted" && t.rows[0][9] == t.rows[0][6])
  {
    var metrics := Metrics(ScalarFields(response.fields));
    var rows := ExpandedRows(response.fields);
    FetchRowSpelled(response, q);
    var forecast := if q.predictor in rows[1] then Some(rows[1][q.predictor]) else None;
    SpelledTriggered(metrics[ForecastThreshold], metrics[ForecastAccuracy], forecast, q);
  }

  /** The trigger cells of the spelled-out row and their schema names. */
  lemma SpelledTriggered(threshold: real, accuracy: real, forecast: Option<real>, q: Query)
    ensures var row := SpelledRow(threshold, accuracy, forecast, q);
      && |row| == |SchemaFor(q.protocol)| && SchemaFor(q.protocol)[6] == "Triggered"
      && (row[6] == Flag(true) <==> forecast.Some? && forecast.value > threshold)
      && (q.protocol != 0 ==> SchemaFor(q.protocol)[9] == "Triggered Adjusted" && row[9] == row[6])
  {
  }

  /** Neither schema has an `Admin Name` column. */
  lemma SchemasLackAdminName()
    ensures "Admin Name" !in Schema8 && "Admin Name" !in Schema11
  {
  }

  /** Any table `get_data` returns, empty or not, lacks the `Admin Name` column. */
  lemma FetchRowHasNoAdminName(response: Response, q: Query)
    requires FetchRow(response, q).Ok?
    ensures "Admin Name" !in FetchRow(response, q).value.columns
  {
    if response.status == 200 {
      FetchRowSchema(response, q);
      SchemasLackAdminName();
    }
  }

  /**
   * When the derivation after a 200 answer fails: exactly when the predictor
   * is not a column of the exploded records (or was dropped as a scalar
   * name), when neither of the first two scalar fields renames to the
   * threshold, when there are fewer than two exploded rows, or when neither
   * renames to the accuracy. The predictor is looked up first, so a missing
   * predictor is always the KeyError that names it.
   */
  lemma DeriveFailures(scalars: seq<(string, real)>, rows: seq<Record>, q: Query)
    ensures var dropped := exists j :: 0 <= j < |scalars| && scalars[j].0 == q.predictor;
      var hasThreshold := exists j :: 0 <= j < |scalars| && j < 2 && Rename(scalars[j].0) == ForecastThreshold;
      var hasAccuracy := exists j :: 0 <= j < |scalars| && j < 2 && Rename(scalars[j].0) == ForecastAccuracy;
      && (dropped || !HasColumn(rows, q.predictor) ==> Derive(scalars, rows, q) == Raised(KeyError(q.predictor)))
      && (Derive(scalars, rows, q).Raised? <==>
            dropped || !HasColumn(rows, q.predictor) || !hasThreshold || |rows| < 2 || !hasAccuracy)
  {
    var metrics := Metrics(scalars);
    var dropped := exists j :: 0 <= j < |scalars| && scalars[j].0 == q.predictor;
    var hasThreshold := exists j :: 0 <= j < |scalars| && j < 2 && Rename(scalars[j].0) == ForecastThreshold;
    var hasAccuracy := exists j :: 0 <= j < |scalars| && j < 2 && Rename(scalars[j].0) == ForecastAccuracy;
    MetricsOfFirstTwo(scalars, ForecastThreshold);
    MetricsOfFirstTwo(scalars, ForecastAccuracy);
    assert hasThreshold <==> ForecastThreshold in metrics;
    assert hasAccuracy <==> ForecastAccuracy in metrics;
    var names := set p | p in scalars :: p.0;
    assert q.predictor in names <==> dropped by {
      if q.predictor in names {
        var p :| p in scalars && p.0 == q.predictor;
      }
      if dropped {
        var j :| 0 <= j < |scalars| && scalars[j].0 == q.predictor;
        assert scalars[j] in scalars;
      }
    }
    var r := Derive(scalars, rows, q);
    if dropped || !HasColumn(rows, q.predictor) {
      assert r == Raised(KeyError(q.predictor));
    } else if !hasThreshold {
      assert r == Raised(KeyError(ForecastThreshold));
    } else if |rows| < 2 {
      assert r == Raised(IndexError);
    } else if !hasAccuracy {
      assert r == Raised(KeyError(ForecastAccuracy));
    } else {
      assert r.Ok?;
    }
  }

  /**
   * When `get_data` fails: a non-200 status never raises (it gives the empty
   * table); after a 200 it raises exactly when the derivation does.
   */
  lemma FetchRowFailures(response: Response, q: Query)
    ensures response.status != 200 ==> FetchRow(response, q) == Ok(Empty)
    ensures response.status == 200 ==>
      var scalars := ScalarFields(response.fields);
      var rows := ExpandedRows(response.fields);
      var dropped := exists j :: 0 <= j < |scalars| && scalars[j].0 == q.predictor;
      var hasThreshold := exists j :: 0 <= j < |scalars| && j < 2 && Rename(scalars[j].0) == ForecastThreshold;
      var hasAccuracy := exists j :: 0 <= j < |scalars| && j < 2 && Rename(scalars[j].0) == ForecastAccuracy;
      && (dropped || !HasColumn(rows, q.predictor) ==> FetchRow(response, q) == Raised(KeyError(q.predictor)))
      && (FetchRow(response, q).Raised? <==>
            dropped || !HasColumn(rows, q.predictor) || !hasThreshold || |rows| < 2 || !hasAccuracy)
  {
    if response.status == 200 {
      var scalars := ScalarFields(response.fields);
      var rows := ExpandedRows(response.fields);
      assert FetchRow(response, q) == Derive(scalars, rows, q);
      DeriveFailures(scalars, rows, q);
    }
  }

  /**
   * Scalar fields after the first two are never read for their values: two
   * answers whose scalar fields carry the same names and agree on the first
   * two values give the same outcome.
   */
  lemma {:induction false} LaterScalarValuesIgnored(s1: seq<(string, real)>, s2: seq<(string, real)>,
                                                    rows: seq<Record>, q: Query)
    requires |s1| == |s2|
    requires forall j :: 0 <= j < |s1| ==> s1[j].0 == s2[j].0
    requires forall j :: 0 <= j < |s1| && j < 2 ==> s1[j] == s2[j]
    ensures Derive(s1, rows, q) == Derive(s2, rows, q)
  {
    var n1 := set p | p in s1 :: p.0;
    var n2 := set p | p in s2 :: p.0;
    forall x | x in n1 ensures x in n2 {
      var p :| p in s1 && p.0 == x;
      var j :| 0 <= j < |s1| && s1[j] == p;
      assert s2[j].0 == x;
    }
    forall x | x in n2 ensures x in n1 {
      var p :| p in s2 && p.0 == x;
      var j :| 0 <= j < |s2| && s2[j] == p;
      assert s1[j].0 == x;
    }
    assert n1 == n2;
    assert Metrics(s1) == Metrics(s2);
  }
}
