# Madagascar end-of-season monitoring: trigger tables and FEWS NET selection

This project is a Dafny model of the data-shaping core of `utils.py` from the
Madagascar end-of-season monitoring dashboard. It covers four routines:

- `get_data` turns one answer of the flexible forecasting maproom's export
  endpoint into the one-row trigger summary. That row holds the frequency,
  issue month, forecast, threshold, difference, accuracy, trigger flag and
  design-tool link, plus the adjusted threshold and protocol columns when the
  threshold protocol is not 0. A non-200 status gives an empty table.
- `get_admin_data` returns the (key, label) table of administrative regions.
  When the level is not 0 and the flag is set, the table is narrowed to the
  caller's valid keys. A non-200 status gives `None`, and an answer that lists
  no region raises a ValueError when its `regions` column is split.
- `get_trigger_tables` runs the loops over frequencies, issue months and
  regions. It stores one labelled summary table per triple under
  `output_freq_{f}_mode_{m}_month_{mo}_region_{key}_table`. All of them sit
  under the single outer key `admin{mode}_tables`.
- `fetch_fewsnet_maadagascar` keeps the IPC classification rows that pass
  four tests: the month test, the years 2023/2024, the `CS` scenario and a
  southern region name. `determine_region` then assigns each kept row the
  first region of interest its unit name mentions. The month test as
  written keeps a row when the months from its projection start month up to
  its end month include October, November, December, January or February.
  A projection that runs past December therefore fails it (see "## Findings").
  The model gives the routine as written and, beside it, the selection with
  the month test corrected to wrap from December to January. Two pandas
  behaviours of the code are kept. A 200 answer that lists no row gives a
  frame without columns, so parsing `projection_start` raises a KeyError.
  When no row passes the month test, the year filter's `apply` runs on an
  empty frame. It yields an empty float mask, which `df[...]` reads as a
  list of column labels, so the frame loses its columns and the `scenario`
  lookup raises a KeyError.

How the pieces are modelled:

- Python exceptions are an `Outcome` value (`Ok` or `Raised(error)`). Each
  routine raises the same exception at the same point as the code does.
- HTTP answers are parameters: a status code and the parsed body.
- The three loops of `get_trigger_tables` and the flatten loop of `get_data`
  are methods with loops. Each is proved equal to a recursive specification
  function, and the properties are proved about those functions.

One property worth knowing: `Triggered Adjusted` compares the forecast
against the *unadjusted* threshold, exactly as `Triggered` does, so the two
columns always agree. `TriggerRow.FetchRowTriggered` proves this.

A non-200 answer from `get_data` does not make the later insert fail:
`df.insert(0, 'Admin Name', label)` on `pd.DataFrame()` gives a one-column
table with no rows (`TriggerTables.EntryOnFailedFetch`). `Frames.InsertFirst`
raises only when the column already exists.

## Model

| member | source | states |
|---|---|---|
| Frames.InsertFirst | utils.py:302 | inserting `Admin Name` first raises a ValueError exactly when the table already has that column; otherwise it adds one column in front, keeps the row count and keeps the table well formed |
| Frames.InsertFirstLookup | utils.py:302-303 | after the insert, the new column reads the label and every other column reads what it read before |
| Decimal.IntToString | utils.py:143-145 | `str` of an integer as the f-strings for the frequency and the protocol write it (and the table names of line 295): at least one character, each a digit or the minus sign |
| Decimal.IntRoundTrip | utils.py:143 | the decimal text written for an integer in an f-string parses back to that integer |
| Decimal.IntToStringInjective | utils.py:295 | different integers are written as different texts |
| TriggerRow.Flatten | utils.py:88-106 | the loop over the normalised columns collects exactly the scalar fields in order, and the frame that exploding and concatenating each list field in turn builds |
| TriggerRow.ScalarFields | utils.py:101-103 | the non-nested columns collected by the loop: the scalar fields as (name, value) pairs, in field order |
| TriggerRow.MergeRows | utils.py:92-100 | `concat(axis=1)` of the frame so far with one exploded list field: row `i` joins both sides' `i`-th rows, and the frame is as long as `MergedLength` says, with the missing cells below row 0 kept as extra empty rows |
| TriggerRow.ExpandedRows | utils.py:92-100 | the frame the loop builds by exploding each list field in field order and concatenating it to the frame so far |
| TriggerRow.ScalarFieldsExact | utils.py:101-103 | a (name, value) pair is among the non-nested columns exactly when the answer has that scalar field |
| TriggerRow.ExpandedRowsLength | utils.py:92-100 | the concatenated frame has as many rows as the list fields have records together, less one for each non-empty list field after the first, since each later explode also turns the missing cells below row 0 into rows; with no records it is empty |
| TriggerRow.ExpandedRowsColumns | utils.py:92-100 | row `i` exists whenever some list field has an `i`-th record, and it has column `k` exactly when one such record carries `k`, so the rows past the longest list hold nothing |
| TriggerRow.ExpandedRowsSingle | utils.py:92-100 | with a single list field, the expanded frame is its records |
| TriggerRow.NoNestedNoRows | utils.py:92-103 | without list fields, the expanded frame is empty |
| TriggerRow.Metrics | utils.py:109-121 | the first two scalar fields, with `threshold` and `skill.accuracy` renamed, as a dictionary; when both rename to one key the second wins |
| TriggerRow.MetricsOfFirstTwo | utils.py:109-121 | a metric key exists exactly when one of the first two scalar fields renames to it; when those two are `threshold` and `skill.accuracy`, in either order, they become `Forecast Threshold` and `Forecast Accuracy` |
| TriggerRow.LaterScalarValuesIgnored | utils.py:109-121 | answers that differ only in the values of scalar fields after the first two give the same outcome |
| TriggerRow.MonthName | utils.py:147-163 | an issue month maps to a name exactly when it is 0..11, and that name is the calendar month abbreviation at that position |
| TriggerRow.MonthNameInjective | utils.py:147-160 | different issue months never share a name |
| TriggerRow.GetData | utils.py:64-190 | running the flatten loop and then the derivation gives exactly the `get_data` outcome for the response |
| TriggerRow.FetchRow | utils.py:80-190 | `get_data` as a function of the response: the empty table for a non-200 status, otherwise the derivation from the flattened answer |
| TriggerRow.Derive | utils.py:106-186 | everything after flattening: the predictor lookup (KeyError), the threshold lookup (KeyError), the second exploded row (IndexError), the accuracy lookup (KeyError), in that order, and otherwise the summary row |
| TriggerRow.DeriveFailures | utils.py:106-186 | the derivation raises exactly when the predictor is dropped or absent (then a KeyError naming it), when no threshold or accuracy is among the first two scalars, or when fewer than two exploded rows exist |
| TriggerRow.FetchRowFailures | utils.py:80-190 | a non-200 status gives the empty table and never raises; after a 200 the call raises exactly when the predictor is dropped or absent (a KeyError naming it), when there is no threshold or accuracy among the first two scalars, or when fewer than two exploded rows exist |
| TriggerRow.FetchRowSpelled | utils.py:109-183 | a successful 200 answer gives one row, whose cells in schema order are: frequency with `%`, month name, forecast of exploded record 1, threshold, forecast minus threshold, accuracy × 100, forecast > threshold, then (protocol ≠ 0) threshold + protocol, the protocol text, the same flag, and finally the link |
| TriggerRow.Combined | utils.py:123-166 | `combined_df` as a column-to-cell dictionary: the kept metrics, the forecast, the trigger flag and difference, the adjusted threshold and flag, and the display columns for frequency, accuracy, protocol, month and link |
| TriggerRow.SummaryRow | utils.py:123-183 | the one-row table that selecting and renaming the schema's columns of `combined_df` gives |
| TriggerRow.SpelledRow | utils.py:123-183 | the summary row written out cell by cell in schema order, independently of `combined_df` |
| TriggerRow.SummaryRowSpelled | utils.py:123-183 | the column selection and renaming of `combined_df` yield exactly the spelled-out row under the schema of the protocol |
| TriggerRow.OutputColumnsSchema | utils.py:168-183 | the selected and renamed columns are the 8-column schema when the protocol is 0 and the 11-column schema otherwise |
| TriggerRow.SchemasDistinct | utils.py:168-177 | neither schema repeats a column name |
| TriggerRow.FetchRowSchema | utils.py:168-186 | a successful 200 answer gives a well-formed table with exactly one row under the schema of its protocol |
| TriggerRow.FetchRowTriggered | utils.py:125-128 | `Triggered` is true exactly when the representative forecast exists and is strictly above the threshold; `Triggered Adjusted` always equals it |
| TriggerRow.FetchRowHasNoAdminName | utils.py:168-190 | no table `get_data` returns has an `Admin Name` column, so the later insert never raises |
| AdminKeys.GetAdminData | utils.py:215-237 | non-200 gives `None`; a 200 answer with no region raises the ValueError of the `key`/`label` split, before the level test; otherwise without filtering every region is returned; the call raises exactly in that empty case and when filtering applies and no valid-key list was given (the TypeError of `isin`) |
| AdminKeys.FilterKeys | utils.py:226-228 | `isin` on the key column: a region survives exactly when it was in the answer and its key is valid; each survivor appears as many times as in the answer, and the survivors keep the answer's order |
| AdminKeys.FilterKeysAllValid | utils.py:226-228 | when every key is valid, the filter keeps everything |
| AdminKeys.GetAdminDataSound | utils.py:215-233 | a returned table is a subsequence of the answer, and when filtering applies every returned key is valid |
| TriggerTables.LabelledRow | utils.py:297-302 | one loop body gives exactly the labelled entry: the `get_data` outcome with `Admin Name` inserted first |
| TriggerTables.FillRegions | utils.py:292-303 | the region loop as a fold over the regions: each successful entry is stored under its table name, and the first raise is the result |
| TriggerTables.FillMonths | utils.py:276-303 | the month loop as a fold: the region loop for each month in turn, from the dictionary the earlier months built, stopping at the first raise |
| TriggerTables.FillFreqs | utils.py:275-303 | the frequency loop as a fold: the month loop for each frequency in turn, stopping at the first raise |
| TriggerTables.FillRegionsLoop | utils.py:292-303 | the region loop gives exactly the region fold: each entry stored under its table name, and the first raise ends the loop |
| TriggerTables.FillMonthsLoop | utils.py:276-307 | with a region table, the month loop gives exactly the month fold; without one, it raises the ValueError when there is at least one month and otherwise returns its input |
| TriggerTables.AdminTablesName | utils.py:270 | the outer key `admin{mode}_tables` |
| TriggerTables.TableName | utils.py:295 | the inner key `output_freq_{freq}_mode_{mode}_month_{month}_region_{key}_table` |
| TriggerTables.Entry | utils.py:297-303 | one loop body as a value: the `get_data` outcome, and on success `Admin Name` inserted first with the region label |
| TriggerTables.TriggerTables | utils.py:264-309 | `get_trigger_tables` as a function of the answers: the admin call's ValueError for an answer with no region and its TypeError, the ValueError when there is no region table and both loops run, otherwise the three folds under the single outer key |
| TriggerTables.GetTriggerTables | utils.py:264-309 | the whole routine gives exactly the `get_trigger_tables` outcome of the answers |
| TriggerTables.RegionsRaisedSticks | utils.py:292-303 | once the region loop has raised, later regions do not change the outcome |
| TriggerTables.MonthsRaisedSticks | utils.py:276-307 | once the month loop has raised, later months do not change the outcome |
| TriggerTables.FreqsRaisedSticks | utils.py:275-307 | once the frequency loop has raised, later frequencies do not change the outcome |
| TriggerTables.RegionsStep | utils.py:292-303 | an entry that raises, reached with every earlier region done, ends the region loop with its exception |
| TriggerTables.MonthsStep | utils.py:276-307 | a region loop that raises ends the month loop with its exception |
| TriggerTables.FreqsStep | utils.py:275-307 | a month loop that raises ends the frequency loop with its exception |
| TriggerTables.RegionsStepOk | utils.py:302-303 | a successful entry is stored under its table name and nothing else changes |
| TriggerTables.MonthsStepOk | utils.py:276-303 | one more month runs the region loop from the dictionary the earlier months built |
| TriggerTables.FreqsStepOk | utils.py:275-303 | one more frequency runs the month loop from the dictionary the earlier frequencies built |
| TriggerTables.NamedSplit | utils.py:275-303 | a triple drawn from the frequency list takes its frequency from all but the last, or is the last |
| TriggerTables.TableNameInjective | utils.py:295 | different (frequency, month, region key) triples of one mode get different table names |
| TriggerTables.NamesInjective | utils.py:295 | the naming of a mode is injective on triples |
| TriggerTables.EntryFails | utils.py:297-302 | an entry raises exactly when its `get_data` call raises, and then with that exception |
| TriggerTables.EntryOnFailedFetch | utils.py:187-190 | a non-200 export answer gives an entry with the single column `Admin Name` and no rows, not an exception |
| TriggerTables.EntryLabelled | utils.py:297-302 | a successful entry is the `get_data` table with `Admin Name` first, holding the region label in every row, with every other column unchanged |
| TriggerTables.FillRegionsOk | utils.py:292-303 | the region loop succeeds exactly when every region's entry does; a raise comes from one of them |
| TriggerTables.FillMonthsOk | utils.py:276-303 | the month loop succeeds exactly when every (month, region) entry does; a raise comes from one of them |
| TriggerTables.FillFreqsOk | utils.py:275-303 | the frequency loop succeeds exactly when every (frequency, month, region) entry does; a raise comes from one of them |
| TriggerTables.FillRegionsKeys | utils.py:292-303 | the region loop adds exactly the names of its regions and leaves other keys untouched |
| TriggerTables.FillMonthsKeys | utils.py:276-303 | the month loop adds exactly the names of its (month, region) pairs and leaves other keys untouched |
| TriggerTables.FillFreqsKeys | utils.py:275-303 | the frequency loop's keys are the starting keys plus exactly the names of its triples |
| TriggerTables.FillRegionsValue | utils.py:302-303 | under the name of the last region carrying a key stands that region's entry |
| TriggerTables.FillMonthsValue | utils.py:276-303 | after the month loop, under a triple's name stands the entry of the last region carrying its key |
| TriggerTables.FillFreqsValue | utils.py:275-303 | after all loops, under a triple's name stands the entry of the last region carrying its key |
| TriggerTables.TriggerTablesOuter | utils.py:266-309 | a result has the single outer key `admin{mode}_tables`; a failed regions request raises the ValueError exactly when both lists are non-empty, and otherwise gives an empty inner dictionary; a regions answer with no region raises the ValueError of the column split, and a filter without a key list the TypeError of `isin`, before any loop |
| TriggerTables.TriggerTablesFails | utils.py:272-309 | with the region table resolved, the call succeeds exactly when every triple's `get_data` succeeds, and otherwise raises one of those calls' exceptions |
| TriggerTables.TriggerTablesContents | utils.py:275-303 | the inner keys are exactly the names of the (frequency, month, region) triples, and under each stands the labelled `get_data` table of the last region carrying that key |
| FewsNet.AnyOfInterest | utils.py:422 | the range from one month to another, both included, holds a month of interest exactly when the result is true |
| FewsNet.InMonthWindowAsWritten | utils.py:422 | the month test as written: some month of interest lies in the range from the start month to the end month |
| FewsNet.AsWrittenDropsYearCrossing | utils.py:422 | as written, a window whose start month comes after its end month never passes the month test |
| FewsNet.AsWrittenCounterexample | utils.py:422 | the November–February window covers only months of interest, yet the test as written drops it |
| FewsNet.InMonthWindowCovers | utils.py:418-422 | the corrected month test holds exactly when some month the window covers, wrapping from December to January, is of interest |
| FewsNet.InMonthWindowAgrees | utils.py:422 | on windows within one calendar year the corrected test and the test as written agree |
| FewsNet.YearCrossingKept | utils.py:422 | every calendar window that crosses the year boundary passes the corrected test |
| FewsNet.FirstRegion | utils.py:447-451 | no region is assigned exactly when no region of interest occurs in the name; otherwise the assigned one is the first in list order that occurs |
| FewsNet.DetermineRegion | utils.py:447-451 | the loop with early return gives exactly the first-occurring region |
| FewsNet.RegionAssignedIffMentioned | utils.py:441-451 | a name gets a region exactly when the alternation pattern of the contains-filter matches it |
| FewsNet.InYears | utils.py:425-432 | the start year or the end year is 2023 or 2024 |
| FewsNet.IsCurrentSituation | utils.py:438 | the scenario is `CS` |
| FewsNet.MentionsRegion | utils.py:441-444 | some region of interest occurs in the unit name, which is what the alternation pattern matches |
| Sequences.Filter | utils.py:420-444 | a boolean mask keeps a row exactly when the table holds it and it satisfies the test, and never adds rows |
| Sequences.FilterCounts | utils.py:420-444 | a row that satisfies the mask is kept as many times as the table holds it, any other row never |
| Sequences.FilterInOrder | utils.py:420-444 | the kept rows are a subsequence of the table, in the table's order |
| Sequences.FilterTwice | utils.py:420-444 | two masks applied one after the other keep exactly what their conjunction keeps |
| FewsNet.SelectWith | utils.py:419-454 | the four filters in the code's order, then the region column, for a given month test; this is the result whenever the month test keeps some row |
| FewsNet.SelectWithRows | utils.py:419-444 | for any month test, the selected rows are the input rows passing all four tests, in input order and with their repetitions |
| FewsNet.SelectWithKept | utils.py:419-454 | for any month test, a row is kept exactly when it is in the input and passes the four tests; every kept row carries the first region its name mentions, never none |
| FewsNet.Selection | utils.py:419-454 | for a given month test, the selection raises `KeyError('scenario')` exactly when no row passes the month test, since the year filter then empties the frame's columns; otherwise it gives the four filters and the region column |
| FewsNet.SelectRowsAsWritten | utils.py:419-454 | the selection as written, with the month range test of line 422 |
| FewsNet.SelectRows | utils.py:419-454 | the selection with the corrected, wrap-around month test |
| FewsNet.FewsNetSelection | utils.py:389-454 | `fetch_fewsnet_maadagascar` as written: a 200 answer with no row raises `KeyError('projection_start')`; otherwise the fetched rows after a 200, or else the rows passed in, go through the selection as written |
| FewsNet.FewsNetSelectionCorrected | utils.py:389-454 | the same routine through the corrected selection |
| FewsNet.SelectRowsAsWrittenKept | utils.py:419-454 | as written, the selection raises `KeyError('scenario')` exactly when no row's range from start to end month holds a month of interest; otherwise a row is kept exactly when it is in the input, its range holds one, and it passes the year, scenario and region tests; every kept row carries its first region |
| FewsNet.FewsNetSelectionKept | utils.py:389-454 | as written, a 200 answer with no row raises `KeyError('projection_start')`; otherwise, on the fetched table after a 200 or else on the table passed in, the call raises `KeyError('scenario')` exactly when no row passes the month test as written, and else a row is kept exactly when that table holds it and it passes the tests as written |
| FewsNet.YearCrossingRowsDropped | utils.py:422 | as written, no row whose start month comes after its end month is ever selected |
| FewsNet.SelectRowsKept | utils.py:419-454 | with the corrected month test, the selection raises `KeyError('scenario')` exactly when no row passes that test; otherwise a row is kept exactly when it is in the input and passes the four tests, and every kept row carries the first region its name mentions |
| FewsNet.FewsNetSelectionCorrectedKept | utils.py:389-454 | with the corrected month test, the same two raises, and otherwise a row is kept exactly when the table the status selects holds it and it passes the corrected tests |
| FewsNet.YearCrossingRowsKept | utils.py:422 | with the corrected month test, a year-crossing row of calendar months that passes the other three tests is selected, and the selection does not raise |
| FewsNet.AnosyIsFirstRegion | utils.py:441-451 | the name "Anosy" passes the region filter and is assigned Anosy |
| FewsNet.CounterexampleRows | utils.py:419-444 | the October–December 2023 row passes every test as written and corrected; the November 2023–February 2024 row passes the corrected tests but not the month test as written |
| FewsNet.SelectionOk | utils.py:419-438 | a table holding a row that passes the month test does not raise and gives the four filters' result |
| FewsNet.SelectWithLabelled | utils.py:419-454 | for any month test, the selection is the rows passing all four tests, in input order, each paired with the first region its name mentions |
| FewsNet.SelectPair | utils.py:419-454 | on a two-row table whose first row passes every test, the first row is kept with its region, and the second is kept after it exactly when it passes |
| FewsNet.SelectionCounterexample | utils.py:422 | on the two current-situation rows for Anosy, October–December 2023 and November 2023–February 2024, the selection as written returns only the first |
| FewsNet.SelectionCorrected | utils.py:422 | the corrected selection on the same two rows returns both, in order, each assigned Anosy |

## Left out

- HTTP requests, authentication, URL construction and the diagnostics printed on failure are not modelled. Answers are parameters, and the design-tool link is given as text. In `get_trigger_tables` the export answers are one function of the (frequency, month, region key) triple, so a triple that recurs is taken to get the same answer both times, whereas the code sends a fresh request for each.
- The styling, colour generation, map and chart routines are not modelled. Nor are the description counts and the `groupby` at the end of the FEWS NET routine, including how they behave on an empty selection; they only display results.
- A FEWS NET table passed in after a failed request is taken to carry the FEWS NET columns, even when it has no row.
- Date parsing with `to_datetime(errors='coerce')` is not modelled. A row whose date does not parse (NaT) is not represented; months and years are integers.
- Categorical conversions, the `missing_values` count and `df.info()` are not modelled; they do not change which rows are kept.
- JSON values other than numbers and lists of records are not modelled. Forecast, threshold and accuracy are reals, with no NaN arithmetic beyond a missing forecast.
- Duplicate column labels are not modelled. This covers a list field whose records carry a top-level scalar name, and a scalar called `forecast`; pandas would build multi-column selections for them.
- Records whose leaves are themselves lists are not modelled. The same goes for the empty-list edge of `explode`, which produces a NaN row; records arrive already flattened.
- `need_valid_keys` is a boolean in the model. The code's `is True` test also rejects truthy non-boolean values.
- Region records are exactly (key, label) pairs. Records with other fields, which make the `key`/`label` split fail, are not modelled.
- `json_normalize` is taken to number the exploded records afresh from 0, which is how `concat(axis=1)` lines them up with the frame.
- Region keys are compared as text. The code compares whatever type the JSON carries.
- `get_admin_data` never returns a pandas Series, so the Series branch of the region loop is dead code and is not modelled.
- The output dictionaries are maps, so the insertion order of Python dictionaries is not modelled; lookup is by key.
- `fetch_fewsnet_maadagascar` ends with a bare expression and returns `None`. The model gives the selected rows, which is what its body computes.
- FewsNet.SelectRows: uses the corrected month test of the finding below, not the range as written; `FewsNet.SelectRowsAsWritten` and `FewsNet.FewsNetSelection` are the routine as written.
- FewsNet.FewsNetSelectionCorrected: the corrected routine, which keeps year-crossing rows that the code drops.
- FewsNet.SelectionCorrected: states the corrected selection on the two-row table; `FewsNet.SelectionCounterexample` states the code's.
- FewsNet.SelectRowsKept: states the corrected selection; `FewsNet.SelectRowsAsWrittenKept` states the code's.
- FewsNet.FewsNetSelectionCorrectedKept: states the corrected routine; `FewsNet.FewsNetSelectionKept` states the code's.

## Findings

| source | as written | input that shows it | evidently intended | confidence | as-written member | corrected member |
|---|---|---|---|---|---|---|
| utils.py:422 | the month test iterates `range(start_month, end_month + 1)`, which is empty when the projection runs past December | a table of two current-situation rows for Anosy, October–December 2023 and November 2023–February 2024 (start month 11, end month 2): the selection keeps only the first, although the second covers only months of interest | windows that wrap from December to January are tested on the months they cover, so both rows are kept | not executed | FewsNet.SelectionCounterexample | FewsNet.YearCrossingRowsKept |
