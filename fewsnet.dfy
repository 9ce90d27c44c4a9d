/**
 * The row-selection rules of `fetch_fewsnet_maadagascar`: which IPC
 * classification rows of the FEWS NET answer are kept, and which region of
 * interest each kept row is assigned to.
 *
 * A row carries the calendar month (1..12) and year of its projection start
 * and end, its scenario code and the full name of its geographic unit.
 * Parsing the dates, the categorical conversions and the final counts are
 * not modelled.
 */
module FewsNet {
  import opened Outcomes
  import opened Sequences

  datatype IpcRow = IpcRow(
    startMonth: int, startYear: int,
    endMonth: int, endYear: int,
    scenario: string,
    unitName: string)

  /** October to February, the lean-season months. */
  const MonthsOfInterest: seq<int> := [10, 11, 12, 1, 2]

  const YearsOfInterest: seq<int> := [2023, 2024]

  const CurrentSituation := "CS"

  /** The southern regions, in the order `determine_region` tries them. */
  const RegionsOfInterest: seq<string> := ["Atsimo-Atsinanana", "Anosy", "Atsimo-Andrefana", "Androy"]

  // ---------------------------------------------------------------------------
  // The month window.
  // ---------------------------------------------------------------------------

  /** `any(month in months_of_interest for month in range(lo, hi + 1))`. */
  function AnyOfInterest(lo: int, hi: int): (r: bool)
    ensures r <==> exists m :: lo <= m <= hi && m in MonthsOfInterest
    decreases hi - lo
  {
    if lo > hi then false
    else if lo in MonthsOfInterest then true
    else
      var rest := AnyOfInterest(lo + 1, hi);
      assert rest <==> exists m :: lo < m <= hi && m in MonthsOfInterest;
      rest
  }

  /**
   * The month test as the code applies it: the window is the range from
   * the start month to the end month, so a window whose start month comes
   * after its end month is empty.
   */
  predicate InMonthWindowAsWritten(startMonth: int, endMonth: int)
  {
    AnyOfInterest(startMonth, endMonth)
  }

  /** A window that runs into the next calendar year never survives the month test as written. */
  lemma AsWrittenDropsYearCrossing(startMonth: int, endMonth: int)
    requires startMonth > endMonth
    ensures !InMonthWindowAsWritten(startMonth, endMonth)
  {
  }

  /**
   * A projection from November to February covers four months of interest
   * and none other, yet the month test as written drops it.
   */
  lemma AsWrittenCounterexample()
    ensures forall m :: m in [11, 12, 1, 2] ==> m in MonthsOfInterest
    ensures !InMonthWindowAsWritten(11, 2)
  {
    AsWrittenDropsYearCrossing(11, 2);
  }

  /**
   * Month `m` lies in the window from `startMonth` to `endMonth`, read as
   * calendar months that wrap from December to January.
   */
  predicate Covers(startMonth: int, endMonth: int, m: int)
  {
    if startMonth <= endMonth then startMonth <= m <= endMonth
    else startMonth <= m <= 12 || 1 <= m <= endMonth
  }

  /** The month test with wrap-around windows: the window covers some month of interest. */
  predicate InMonthWindow(startMonth: int, endMonth: int)
  {
    if startMonth <= endMonth then AnyOfInterest(startMonth, endMonth)
    else AnyOfInterest(startMonth, 12) || AnyOfInterest(1, endMonth)
  }

  /** The corrected test is exactly "some covered month is of interest". */
  lemma InMonthWindowCovers(startMonth: int, endMonth: int)
    ensures InMonthWindow(startMonth, endMonth) <==>
      exists m :: Covers(startMonth, endMonth, m) && m in MonthsOfInterest
  {
    if InMonthWindow(startMonth, endMonth) {
      if startMonth <= endMonth {
        var m :| startMonth <= m <= endMonth && m in MonthsOfInterest;
        assert Covers(startMonth, endMonth, m);
      } else if AnyOfInterest(startMonth, 12) {
        var m :| startMonth <= m <= 12 && m in MonthsOfInterest;
        assert Covers(startMonth, endMonth, m);
      } else {
        var m :| 1 <= m <= endMonth && m in MonthsOfInterest;
        assert Covers(startMonth, endMonth, m);
      }
    }
  }

  /** On windows within one calendar year the two tests agree. */
  lemma InMonthWindowAgrees(startMonth: int, endMonth: int)
    requires startMonth <= endMonth
    ensures InMonthWindow(startMonth, endMonth) == InMonthWindowAsWritten(startMonth, endMonth)
  {
  }

  /** Every window of calendar months that crosses the year boundary covers December, so it is kept. */
  lemma YearCrossingKept(startMonth: int, endMonth: int)
    requires 1 <= endMonth < startMonth <= 12
    ensures InMonthWindow(startMonth, endMonth)
  {
    assert MonthsOfInterest[2] == 12;
  }

  // ---------------------------------------------------------------------------
  // Year, scenario and region tests.
  // ---------------------------------------------------------------------------

  /** The start year or the end year is one of interest. */
  predicate InYears(row: IpcRow)
  {
    row.startYear in YearsOfInterest || row.endYear in YearsOfInterest
  }

  /** The row describes the current situation rather than a projection. */
  predicate IsCurrentSituation(row: IpcRow)
  {
    row.scenario == CurrentSituation
  }

  /** `part` occurs in `text` starting at index `i`. */
  predicate OccursAt(part: string, text: string, i: int)
  {
    0 <= i <= |text| - |part| && text[i..i + |part|] == part
  }

  /** Python's `part in text`. */
  predicate IsSubstring(part: string, text: string)
  {
    exists i :: 0 <= i <= |text| - |part| && OccursAt(part, text, i)
  }

  /**
   * `str.contains` with the pattern `'|'.join(regions_of_interest)`: the
   * names hold no regular-expression metacharacters, so the pattern matches
   * exactly when one of them occurs in the text.
   */
  predicate MentionsRegion(name: string)
  {
    exists region :: region in RegionsOfInterest && IsSubstring(region, name)
  }

  /** The first of `regions`, in their order, that occurs in `name`. */
  function FirstRegion(regions: seq<string>, name: string): (r: Option<string>)
    ensures r.None? <==> forall j :: 0 <= j < |regions| ==> !IsSubstring(regions[j], name)
    ensures r.Some? ==>
      exists i :: 0 <= i < |regions| && r.value == regions[i]
        && IsSubstring(regions[i], name)
        && forall j :: 0 <= j < i ==> !IsSubstring(regions[j], name)
    decreases |regions|
  {
    if regions == [] then None
    else if IsSubstring(regions[0], name) then Some(regions[0])
    else
      var rest := FirstRegion(regions[1..], name);
      assert forall j :: 1 <= j < |regions| ==> regions[1..][j - 1] == regions[j];
      if rest.Some? then
        ghost var i :| 0 <= i < |regions[1..]| && rest.value == regions[1..][i]
          && IsSubstring(regions[1..][i], name)
          && forall j :: 0 <= j < i ==> !IsSubstring(regions[1..][j], name);
        assert IsSubstring(regions[i + 1], name);
        rest
      else
        rest
  }

  /** `determine_region`: the loop over the regions of interest with its early return. */
  method DetermineRegion(name: string) returns (r: Option<string>)
    ensures r == FirstRegion(RegionsOfInterest, name)
  {
    var i := 0;
    while i < |RegionsOfInterest|
      invariant 0 <= i <= |RegionsOfInterest|
      invariant FirstRegion(RegionsOfInterest, name) == FirstRegion(RegionsOfInterest[i..], name)
    {
      var region := RegionsOfInterest[i];
      if IsSubstring(region, name) {
        return Some(region);
      }
      assert RegionsOfInterest[i..][1..] == RegionsOfInterest[i + 1..];
      i := i + 1;
    }
    return None;
  }

  /** A name the contains-filter keeps always gets a region, and one it drops never does. */
  lemma RegionAssignedIffMentioned(name: string)
    ensures FirstRegion(RegionsOfInterest, name).Some? <==> MentionsRegion(name)
  {
    if MentionsRegion(name) {
      var region :| region in RegionsOfInterest && IsSubstring(region, name);
      var j :| 0 <= j < |RegionsOfInterest| && RegionsOfInterest[j] == region;
    }
  }

  // ---------------------------------------------------------------------------
  // The selection pipeline.
  // ---------------------------------------------------------------------------

  /** A kept row together with the region `determine_region` assigned it. */
  datatype Selected = Selected(row: IpcRow, region: Option<string>)

  /**
   * The four filters in the order the code applies them (month window, year,
   * scenario, region name), then the region column; `inWindow` is the month
   * test applied to a row's start and end months.
   */
  function SelectWith(rows: seq<IpcRow>, inWindow: (int, int) -> bool): seq<Selected>
  {
    var byMonth := Filter(rows, (row: IpcRow) => inWindow(row.startMonth, row.endMonth));
    var byYear := Filter(byMonth, InYears);
    var current := Filter(byYear, IsCurrentSituation);
    var southern := Filter(current, (row: IpcRow) => MentionsRegion(row.unitName));
    seq(|southern|, i requires 0 <= i < |southern| => Selected(southern[i], FirstRegion(RegionsOfInterest, southern[i].unitName)))
  }

  /** The tests a row must pass to be kept, with `inWindow` as the month test. */
  predicate KeptWith(row: IpcRow, inWindow: (int, int) -> bool)
  {
    && inWindow(row.startMonth, row.endMonth)
    && InYears(row)
    && IsCurrentSituation(row)
    && MentionsRegion(row.unitName)
  }

  /** The rows of a selection, without their regions. */
  function RowsOf(selected: seq<Selected>): seq<IpcRow>
  {
    seq(|selected|, i requires 0 <= i < |selected| => selected[i].row)
  }

  /**
   * Whatever the month test, the selected rows are the input rows passing
   * all four tests, in input order and as many times as the input holds
   * each: the four masks in a row act as their conjunction.
   */
  lemma SelectWithRows(rows: seq<IpcRow>, inWindow: (int, int) -> bool)
    ensures RowsOf(SelectWith(rows, inWindow)) == Filter(rows, (row: IpcRow) => KeptWith(row, inWindow))
  {
    var month := (row: IpcRow) => inWindow(row.startMonth, row.endMonth);
    var monthYear := (row: IpcRow) => month(row) && InYears(row);
    var monthYearCs := (row: IpcRow) => monthYear(row) && IsCurrentSituation(row);
    var region := (row: IpcRow) => MentionsRegion(row.unitName);
    FilterTwice(rows, month, InYears, monthYear);
    FilterTwice(rows, monthYear, IsCurrentSituation, monthYearCs);
    FilterTwice(rows, monthYearCs, region, (row: IpcRow) => KeptWith(row, inWindow));
  }

  /** Whatever the month test, a row is selected exactly when it passes all four tests. */
  lemma SelectWithMembers(rows: seq<IpcRow>, row: IpcRow, inWindow: (int, int) -> bool)
    ensures (exists s :: s in SelectWith(rows, inWindow) && s.row == row) <==> row in rows && KeptWith(row, inWindow)
  {
    var out := SelectWith(rows, inWindow);
    var kept := Filter(rows, (row: IpcRow) => KeptWith(row, inWindow));
    SelectWithRows(rows, inWindow);
    if row in rows && KeptWith(row, inWindow) {
      var i :| 0 <= i < |kept| && kept[i] == row;
      assert RowsOf(out)[i] == row;
      assert out[i] in out;
    }
    if s :| s in out && s.row == row {
      var i :| 0 <= i < |out| && out[i] == s;
      assert RowsOf(out)[i] == row;
      assert kept[i] in kept;
    }
  }

  /** Every selected row carries the first region of interest its unit name mentions, never none. */
  lemma SelectWithRegions(rows: seq<IpcRow>, inWindow: (int, int) -> bool)
    ensures forall s :: s in SelectWith(rows, inWindow) ==>
      s.region.Some? && s.region == FirstRegion(RegionsOfInterest, s.row.unitName)
  {
    var out := SelectWith(rows, inWindow);
    var kept := Filter(rows, (row: IpcRow) => KeptWith(row, inWindow));
    SelectWithRows(rows, inWindow);
    forall s | s in out
      ensures s.region.Some? && s.region == FirstRegion(RegionsOfInterest, s.row.unitName)
    {
      var i :| 0 <= i < |out| && out[i] == s;
      assert RowsOf(out)[i] == s.row;
      assert kept[i] in kept;
      RegionAssignedIffMentioned(s.row.unitName);
    }
  }

  /**
   * Whatever the month test, a row is kept exactly when it passes all four
   * tests, and every kept row carries the first region of interest its unit
   * name mentions, never none.
   */
  lemma SelectWithKept(rows: seq<IpcRow>, row: IpcRow, inWindow: (int, int) -> bool)
    ensures (exists s :: s in SelectWith(rows, inWindow) && s.row == row) <==> row in rows && KeptWith(row, inWindow)
    ensures forall s :: s in SelectWith(rows, inWindow) ==>
      s.region.Some? && s.region == FirstRegion(RegionsOfInterest, s.row.unitName)
  {
    SelectWithMembers(rows, row, inWindow);
    SelectWithRegions(rows, inWindow);
  }

  /** The column lookups that fail once the frame has lost its columns. */
  const StartColumn := "projection_start"
  const ScenarioColumn := "scenario"

  /**
   * The selection on a table that carries the FEWS NET columns. When the
   * month test keeps no row, the year filter's `apply` runs on an empty
   * frame and yields an empty float mask; `df[...]` reads that as a list of
   * column labels, so the frame loses every column and the scenario lookup
   * raises a KeyError. Otherwise the four filters and the region column.
   */
  function Selection(rows: seq<IpcRow>, inWindow: (int, int) -> bool): (r: Outcome<seq<Selected>>)
    ensures r.Raised? <==> forall x :: x in rows ==> !inWindow(x.startMonth, x.endMonth)
    ensures r.Raised? ==> r.error == KeyError(ScenarioColumn)
  {
    if forall x :: x in rows ==> !inWindow(x.startMonth, x.endMonth) then Raised(KeyError(ScenarioColumn))
    else Ok(SelectWith(rows, inWindow))
  }

  /** The selection of `fetch_fewsnet_maadagascar` as written, with the month test as the code applies it. */
  function SelectRowsAsWritten(rows: seq<IpcRow>): Outcome<seq<Selected>>
  {
    Selection(rows, InMonthWindowAsWritten)
  }

  /** The selection with the corrected, wrap-around month test. */
  function SelectRows(rows: seq<IpcRow>): Outcome<seq<Selected>>
  {
    Selection(rows, InMonthWindow)
  }

  /**
   * `fetch_fewsnet_maadagascar`: the rows filtered are the fetched table
   * after a 200 answer, otherwise the table passed in. An answer that lists
   * no row becomes a frame without columns, so parsing its first date column
   * raises a KeyError.
   */
  function FewsNetSelection(status: int, fetched: seq<IpcRow>, passed: seq<IpcRow>): Outcome<seq<Selected>>
  {
    if status == 200 && fetched == [] then Raised(KeyError(StartColumn))
    else SelectRowsAsWritten(if status == 200 then fetched else passed)
  }

  /** The same routine with the corrected month test. */
  function FewsNetSelectionCorrected(status: int, fetched: seq<IpcRow>, passed: seq<IpcRow>): Outcome<seq<Selected>>
  {
    if status == 200 && fetched == [] then Raised(KeyError(StartColumn))
    else SelectRows(if status == 200 then fetched else passed)
  }

  /** A row the code keeps: the month test as written and the three other tests. */
  predicate KeptAsWritten(row: IpcRow)
  {
    KeptWith(row, InMonthWindowAsWritten)
  }

  /** A row the corrected selection keeps. */
  predicate Kept(row: IpcRow)
  {
    KeptWith(row, InMonthWindow)
  }

  /**
   * As written, the selection raises the scenario KeyError exactly when no
   * row's range from start month to end month holds a month of interest.
   * Otherwise a row is kept exactly when its range holds one and it passes
   * the year, scenario and region tests, and every kept row carries its
   * first region.
   */
  lemma SelectRowsAsWrittenKept(rows: seq<IpcRow>, row: IpcRow)
    ensures SelectRowsAsWritten(rows) == Raised(KeyError(ScenarioColumn)) <==>
      forall x :: x in rows ==> !exists m :: x.startMonth <= m <= x.endMonth && m in MonthsOfInterest
    ensures SelectRowsAsWritten(rows).Ok? ==>
      ((exists s :: s in SelectRowsAsWritten(rows).value && s.row == row) <==>
        && row in rows
        && (exists m :: row.startMonth <= m <= row.endMonth && m in MonthsOfInterest)
        && InYears(row) && IsCurrentSituation(row) && MentionsRegion(row.unitName))
    ensures SelectRowsAsWritten(rows).Ok? ==> forall s :: s in SelectRowsAsWritten(rows).value ==>
      s.region.Some? && s.region == FirstRegion(RegionsOfInterest, s.row.unitName)
  {
    SelectWithKept(rows, row, InMonthWindowAsWritten);
  }

  /**
   * With the corrected test, the selection raises exactly when no row passes
   * the month test; otherwise a row is kept exactly when it passes all four
   * tests, and every kept row carries its first region.
   */
  lemma SelectRowsKept(rows: seq<IpcRow>, row: IpcRow)
    ensures SelectRows(rows) == Raised(KeyError(ScenarioColumn)) <==>
      forall x :: x in rows ==> !InMonthWindow(x.startMonth, x.endMonth)
    ensures SelectRows(rows).Ok? ==>
      ((exists s :: s in SelectRows(rows).value && s.row == row) <==> row in rows && Kept(row))
    ensures SelectRows(rows).Ok? ==> forall s :: s in SelectRows(rows).value ==>
      s.region.Some? && s.region == FirstRegion(RegionsOfInterest, s.row.unitName)
  {
    SelectWithKept(rows, row, InMonthWindow);
  }

  /**
   * The routine as written: an empty 200 answer raises the date-column
   * KeyError; otherwise the table the status selects raises the scenario
   * KeyError exactly when none of its rows passes the month test, and
   * else a row is kept exactly when that table holds it and it passes the
   * tests as written.
   */
  lemma FewsNetSelectionKept(status: int, fetched: seq<IpcRow>, passed: seq<IpcRow>, row: IpcRow)
    ensures status == 200 && fetched == [] ==> FewsNetSelection(status, fetched, passed) == Raised(KeyError(StartColumn))
    ensures var table := if status == 200 then fetched else passed;
      !(status == 200 && fetched == []) ==>
        && (FewsNetSelection(status, fetched, passed).Raised? <==>
              forall x :: x in table ==> !InMonthWindowAsWritten(x.startMonth, x.endMonth))
        && (FewsNetSelection(status, fetched, passed).Ok? ==>
              ((exists s :: s in FewsNetSelection(status, fetched, passed).value && s.row == row) <==>
                 row in table && KeptAsWritten(row)))
  {
    SelectWithKept(if status == 200 then fetched else passed, row, InMonthWindowAsWritten);
  }

  /** The corrected routine raises in the same two cases and otherwise keeps the rows passing the corrected tests. */
  lemma FewsNetSelectionCorrectedKept(status: int, fetched: seq<IpcRow>, passed: seq<IpcRow>, row: IpcRow)
    ensures status == 200 && fetched == [] ==> FewsNetSelectionCorrected(status, fetched, passed) == Raised(KeyError(StartColumn))
    ensures var table := if status == 200 then fetched else passed;
      !(status == 200 && fetched == []) ==>
        && (FewsNetSelectionCorrected(status, fetched, passed).Raised? <==>
              forall x :: x in table ==> !InMonthWindow(x.startMonth, x.endMonth))
        && (FewsNetSelectionCorrected(status, fetched, passed).Ok? ==>
              ((exists s :: s in FewsNetSelectionCorrected(status, fetched, passed).value && s.row == row) <==>
                 row in table && Kept(row)))
  {
    SelectWithKept(if status == 200 then fetched else passed, row, InMonthWindow);
  }

  /** As written, no row whose projection runs into the next calendar year is ever selected. */
  lemma YearCrossingRowsDropped(rows: seq<IpcRow>, row: IpcRow)
    requires row.startMonth > row.endMonth
    ensures SelectRowsAsWritten(rows).Ok? ==> forall s :: s in SelectRowsAsWritten(rows).value ==> s.row != row
  {
    SelectWithKept(rows, row, InMonthWindowAsWritten);
    AsWrittenDropsYearCrossing(row.startMonth, row.endMonth);
  }

  /**
   * With the corrected test, every row of calendar months whose projection
   * runs into the next year is selected when it passes the other three
   * tests, and the selection then does not raise.
   */
  lemma YearCrossingRowsKept(rows: seq<IpcRow>, row: IpcRow)
    requires 1 <= row.endMonth < row.startMonth <= 12
    requires row in rows && InYears(row) && IsCurrentSituation(row) && MentionsRegion(row.unitName)
    ensures SelectRows(rows).Ok?
    ensures exists s :: s in SelectRows(rows).value && s.row == row
  {
    YearCrossingKept(row.startMonth, row.endMonth);
    SelectRowsKept(rows, row);
  }

  /** "Anosy" names the second region of interest and no earlier one. */
  lemma AnosyIsFirstRegion()
    ensures MentionsRegion("Anosy")
    ensures FirstRegion(RegionsOfInterest, "Anosy") == Some("Anosy")
  {
    assert OccursAt("Anosy", "Anosy", 0);
    assert IsSubstring("Anosy", "Anosy");
    assert RegionsOfInterest[1] == "Anosy";
    assert "Anosy" in RegionsOfInterest;
    assert !IsSubstring(RegionsOfInterest[0], "Anosy");
  }

  /** The current situation in Anosy from October to December 2023, within one calendar year. */
  const WithinYear := IpcRow(10, 2023, 12, 2023, CurrentSituation, "Anosy")

  /** The current situation in Anosy from November 2023 to February 2024, across the year boundary. */
  const AcrossYears := IpcRow(11, 2023, 2, 2024, CurrentSituation, "Anosy")

  /** Both rows pass the year, scenario and region tests, and only the second crosses the year boundary. */
  lemma CounterexampleRows()
    ensures KeptAsWritten(WithinYear) && Kept(WithinYear)
    ensures !KeptAsWritten(AcrossYears) && Kept(AcrossYears)
    ensures FirstRegion(RegionsOfInterest, "Anosy") == Some("Anosy")
  {
    AnosyIsFirstRegion();
    assert YearsOfInterest[0] == 2023;
    assert MonthsOfInterest[0] == 10;
    assert InMonthWindowAsWritten(10, 12) && InMonthWindow(10, 12);
    AsWrittenDropsYearCrossing(11, 2);
    YearCrossingKept(11, 2);
  }

  /** The selection as written on the two rows keeps only the one within the year. */
  lemma SelectionCounterexample()
    ensures SelectRowsAsWritten([WithinYear, AcrossYears]) == Ok([Selected(WithinYear, Some("Anosy"))])
  {
    var rows := [WithinYear, AcrossYears];
    CounterexampleRows();
    SelectionOk(rows, InMonthWindowAsWritten, WithinYear);
    assert SelectRowsAsWritten(rows) == Ok(SelectWith(rows, InMonthWindowAsWritten));
    SelectPair(WithinYear, AcrossYears, InMonthWindowAsWritten);
    assert !KeptWith(AcrossYears, InMonthWindowAsWritten);
    assert SelectWith(rows, InMonthWindowAsWritten) == [Selected(WithinYear, FirstRegion(RegionsOfInterest, WithinYear.unitName))];
    assert WithinYear.unitName == "Anosy";
  }

  /** The corrected selection on the same two rows keeps both. */
  lemma SelectionCorrected()
    ensures SelectRows([WithinYear, AcrossYears]) ==
      Ok([Selected(WithinYear, Some("Anosy")), Selected(AcrossYears, Some("Anosy"))])
  {
    var rows := [WithinYear, AcrossYears];
    var region := FirstRegion(RegionsOfInterest, "Anosy");
    CounterexampleRows();
    assert WithinYear.unitName == "Anosy" && AcrossYears.unitName == "Anosy";
    assert Kept(AcrossYears);
    SelectionOk(rows, InMonthWindow, WithinYear);
    SelectPair(WithinYear, AcrossYears, InMonthWindow);
    assert SelectWith(rows, InMonthWindow) == [Selected(WithinYear, region), Selected(AcrossYears, region)];
  }

  /** A table holding a row that passes the month test does not raise. */
  lemma SelectionOk(rows: seq<IpcRow>, inWindow: (int, int) -> bool, x: IpcRow)
    requires x in rows && inWindow(x.startMonth, x.endMonth)
    ensures Selection(rows, inWindow) == Ok(SelectWith(rows, inWindow))
  {
  }

  /** The region column added to the kept rows. */
  function Labelled(kept: seq<IpcRow>): seq<Selected>
  {
    seq(|kept|, i requires 0 <= i < |kept| => Selected(kept[i], FirstRegion(RegionsOfInterest, kept[i].unitName)))
  }

  /** Whatever the month test, the selection is the region column added to the rows passing all four tests. */
  lemma SelectWithLabelled(rows: seq<IpcRow>, inWindow: (int, int) -> bool)
    ensures SelectWith(rows, inWindow) == Labelled(Filter(rows, (row: IpcRow) => KeptWith(row, inWindow)))
  {
    var out := SelectWith(rows, inWindow);
    var kept := Filter(rows, (row: IpcRow) => KeptWith(row, inWindow));
    SelectWithRows(rows, inWindow);
    assert |RowsOf(out)| == |out|;
    forall i | 0 <= i < |out|
      ensures out[i] == Labelled(kept)[i]
    {
      assert RowsOf(out)[i] == out[i].row;
    }
  }

  /** A two-row table whose first row passes every test keeps it, and keeps the second exactly when it passes. */
  lemma SelectPair(a: IpcRow, b: IpcRow, inWindow: (int, int) -> bool)
    requires KeptWith(a, inWindow)
    ensures SelectWith([a, b], inWindow) ==
      [Selected(a, FirstRegion(RegionsOfInterest, a.unitName))]
      + (if KeptWith(b, inWindow) then [Selected(b, FirstRegion(RegionsOfInterest, b.unitName))] else [])
  {
    var keep := (row: IpcRow) => KeptWith(row, inWindow);
    SelectWithLabelled([a, b], inWindow);
    assert [a, b][1..] == [b];
    assert [b][1..] == [];
    assert Filter([b], keep) == if keep(b) then [b] else [];
    assert Filter([a, b], keep) == [a] + Filter([b], keep);
  }
}
