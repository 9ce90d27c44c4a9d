/**
 * `get_trigger_tables`: one summary table per (frequency, issue month,
 * region), gathered under a single outer key for the administrative level.
 *
 * Both kinds of HTTP exchange are parameters: the regions endpoint answers
 * once (`AdminResponse`), and the export endpoint answers each call through
 * `Config.respond`.
 */
module TriggerTables {
  import opened Outcomes
  import opened Decimal
  import opened Frames
  import opened TriggerRow
  import opened AdminKeys

  /** What the regions request returned: the status code and the `regions` list. */
  datatype AdminResponse = AdminResponse(status: int, regions: seq<Region>)

  /**
   * The arguments of `get_trigger_tables` that reach the tables. The export
   * call for (frequency, month, region key) is answered by `respond`, and
   * `link` gives the design-tool hyperlink built for (frequency, month).
   */
  datatype Config = Config(
    mode: int,
    predictor: string,
    protocol: int,
    respond: (int, int, string) -> Response,
    link: (int, int) -> string)

  type Tables = map<string, Table>

  /** What the innermost loop body yields for (frequency, month, region). */
  type EntryFn = (int, int, Region) -> Outcome<Table>

  /** The inner key given to (frequency, month, region key). */
  type NameFn = (int, int, string) -> string

  const AdminNameColumn := "Admin Name"
  const UnexpectedAdminData := "Unexpected output type from get_admin_data."

  /** The single outer key, `admin{mode}_tables`. */
  function AdminTablesName(mode: int): string
  {
    "admin" + IntToString(mode) + "_tables"
  }

  /** The inner key, `output_freq_{freq}_mode_{mode}_month_{month}_region_{key}_table`. */
  function TableName(freq: int, mode: int, month: int, key: string): string
  {
    "output_freq_" + (IntToString(freq) + ("_mode_" + (IntToString(mode)
      + ("_month_" + (IntToString(month) + ("_region_" + (key + "_table")))))))
  }

  /** The `get_data` arguments of one call. */
  function QueryFor(c: Config, freq: int, month: int): Query
  {
    Query(c.predictor, month, freq, c.protocol, c.link(freq, month))
  }

  /** One step of the innermost loop: fetch the row, then prepend `Admin Name`. */
  function Entry(c: Config, freq: int, month: int, region: Region): Outcome<Table>
  {
    match FetchRow(c.respond(freq, month, region.key), QueryFor(c, freq, month))
    case Raised(e) => Raised(e)
    case Ok(t) => InsertFirst(t, AdminNameColumn, Text(region.name))
  }

  function NamesOf(mode: int): NameFn
  {
    (freq, month, key) => TableName(freq, mode, month, key)
  }

  /** Different (frequency, month, key) triples get different names. */
  ghost predicate NamingInjective(naming: NameFn)
  {
    forall f1, mo1, k1, f2, mo2, k2 :: naming(f1, mo1, k1) == naming(f2, mo2, k2) ==> f1 == f2 && mo1 == mo2 && k1 == k2
  }

  function EntryOf(c: Config): EntryFn
  {
    (freq, month, region) => Entry(c, freq, month, region)
  }

  /** The region loop for one (frequency, month), from the dictionary `acc`. */
  function FillRegions(entry: EntryFn, naming: NameFn, acc: Tables, freq: int, month: int, regions: seq<Region>): Outcome<Tables>
    decreases |regions|
  {
    if regions == [] then Ok(acc)
    else
      var last := regions[|regions| - 1];
      match FillRegions(entry, naming, acc, freq, month, regions[..|regions| - 1])
      case Raised(e) => Raised(e)
      case Ok(m) =>
        match entry(freq, month, last)
        case Raised(e) => Raised(e)
        case Ok(t) => Ok(m[naming(freq, month, last.key) := t])
  }

  /** The month loop for one frequency. */
  function FillMonths(entry: EntryFn, naming: NameFn, acc: Tables, freq: int, months: seq<int>, regions: seq<Region>): Outcome<Tables>
    decreases |months|
  {
    if months == [] then Ok(acc)
    else
      match FillMonths(entry, naming, acc, freq, months[..|months| - 1], regions)
      case Raised(e) => Raised(e)
      case Ok(m) => FillRegions(entry, naming, m, freq, months[|months| - 1], regions)
  }

  /** The frequency loop, outermost. */
  function FillFreqs(entry: EntryFn, naming: NameFn, acc: Tables, freqs: seq<int>, months: seq<int>, regions: seq<Region>): Outcome<Tables>
    decreases |freqs|
  {
    if freqs == [] then Ok(acc)
    else
      match FillFreqs(entry, naming, acc, freqs[..|freqs| - 1], months, regions)
      case Raised(e) => Raised(e)
      case Ok(m) => FillMonths(entry, naming, m, freqs[|freqs| - 1], months, regions)
  }

  /**
   * `get_trigger_tables` as a function of the answers. A failed regions
   * request leaves no region table, which raises the ValueError inside the
   * month loop, so only when both loops run at least once.
   */
  function TriggerTables(c: Config, freqs: seq<int>, months: seq<int>, admin: AdminResponse,
                         needValidKeys: bool, validKeys: Option<seq<string>>): Outcome<map<string, Tables>>
  {
    match GetAdminData(admin.status, admin.regions, c.mode, needValidKeys, validKeys)
    case Raised(e) => Raised(e)
    case Ok(None) =>
      if |freqs| > 0 && |months| > 0 then Raised(ValueError(UnexpectedAdminData))
      else Ok(map[AdminTablesName(c.mode) := map[]])
    case Ok(Some(regions)) =>
      match FillFreqs(EntryOf(c), NamesOf(c.mode), map[], freqs, months, regions)
      case Raised(e) => Raised(e)
      case Ok(inner) => Ok(map[AdminTablesName(c.mode) := inner])
  }

  /** The body of the innermost loop: `get_data`, then `Admin Name` inserted first. */
  method LabelledRow(c: Config, freq: int, month: int, region: Region) returns (r: Outcome<Table>)
    ensures r == Entry(c, freq, month, region)
  {
    var df := GetData(c.respond(freq, month, region.key), QueryFor(c, freq, month));
    if df.Raised? {
      return Raised(df.error);
    }
    r := InsertFirst(df.value, AdminNameColumn, Text(region.name));
  }

  /** The region loop of one (frequency, month): one labelled table per region, stored under its name. */
  method FillRegionsLoop(c: Config, tables0: Tables, freq: int, month: int, regions: seq<Region>)
    returns (r: Outcome<Tables>)
    ensures r == FillRegions(EntryOf(c), NamesOf(c.mode), tables0, freq, month, regions)
  {
    ghost var entry := EntryOf(c);
    ghost var naming := NamesOf(c.mode);
    var tables := tables0;
    var k := 0;
    assert regions[..k] == [];
    while k < |regions|
      invariant 0 <= k <= |regions|
      invariant FillRegions(entry, naming, tables0, freq, month, regions[..k]) == Ok(tables)
    {
      var region := regions[k];
      var tableName := TableName(freq, c.mode, month, region.key);
      var labelled := LabelledRow(c, freq, month, region);
      assert labelled == entry(freq, month, region);
      if labelled.Raised? {
        RegionsStep(entry, naming, tables0, freq, month, regions, k, labelled.error);
        return Raised(labelled.error);
      }
      RegionsStepOk(entry, naming, tables0, freq, month, regions, k, tables, labelled.value);
      tables := tables[tableName := labelled.value];
      k := k + 1;
    }
    assert regions[..k] == regions;
    r := Ok(tables);
  }

  /**
   * The month loop of one frequency. Without a region table (the regions
   * request failed) its first pass raises the ValueError.
   */
  method FillMonthsLoop(c: Config, tables0: Tables, freq: int, months: seq<int>, regions: Option<seq<Region>>)
    returns (r: Outcome<Tables>)
    ensures regions.Some? ==> r == FillMonths(EntryOf(c), NamesOf(c.mode), tables0, freq, months, regions.value)
    ensures regions.None? ==> r == if |months| > 0 then Raised(ValueError(UnexpectedAdminData)) else Ok(tables0)
  {
    ghost var entry := EntryOf(c);
    ghost var naming := NamesOf(c.mode);
    var tables := tables0;
    var j := 0;
    assert months[..j] == [];
    while j < |months|
      invariant 0 <= j <= |months|
      invariant regions.None? ==> j == 0 && tables == tables0
      invariant regions.Some? ==> FillMonths(entry, naming, tables0, freq, months[..j], regions.value) == Ok(tables)
    {
      var month := months[j];
      if regions.None? {
        return Raised(ValueError(UnexpectedAdminData));
      }
      var filled := FillRegionsLoop(c, tables, freq, month, regions.value);
      MonthsStepOk(entry, naming, tables0, freq, months, regions.value, j, tables);
      if filled.Raised? {
        MonthsStep(entry, naming, tables0, freq, months, regions.value, j, tables, filled.error);
        return filled;
      }
      tables := filled.value;
      j := j + 1;
    }
    assert months[..j] == months;
    r := Ok(tables);
  }

  /** `get_trigger_tables`: the frequency loop, the month and region loops nested in it. */
  method GetTriggerTables(c: Config, freqs: seq<int>, months: seq<int>, admin: AdminResponse,
                          needValidKeys: bool, validKeys: Option<seq<string>>)
    returns (r: Outcome<map<string, Tables>>)
    ensures r == TriggerTables(c, freqs, months, admin, needValidKeys, validKeys)
  {
    var adminName := AdminTablesName(c.mode);
    var adminData := GetAdminData(admin.status, admin.regions, c.mode, needValidKeys, validKeys);
    if adminData.Raised? {
      return Raised(adminData.error);
    }
    var regions := adminData.value;
    ghost var entry := EntryOf(c);
    ghost var naming := NamesOf(c.mode);
    var tables: Tables := map[];
    var i := 0;
    assert freqs[..i] == [];
    while i < |freqs|
      invariant 0 <= i <= |freqs|
      invariant regions.None? ==> tables == map[] && (i > 0 ==> |months| == 0)
      invariant regions.Some? ==> FillFreqs(entry, naming, map[], freqs[..i], months, regions.value) == Ok(tables)
    {
      var filled := FillMonthsLoop(c, tables, freqs[i], months, regions);
      assert freqs[..i + 1][..i] == freqs[..i];
      if filled.Raised? {
        if regions.Some? {
          FreqsStep(entry, naming, map[], freqs, months, regions.value, i, tables, filled.error);
        }
        return Raised(filled.error);
      }
      tables := filled.value;
      i := i + 1;
    }
    assert freqs[..i] == freqs;
    r := Ok(map[adminName := tables]);
  }

  // ---------------------------------------------------------------------------
  // A raise inside the loops ends the whole call with that exception.
  // ---------------------------------------------------------------------------

  lemma {:induction false} RegionsRaisedSticks(entry: EntryFn, naming: NameFn, acc: Tables, freq: int, month: int,
                                               regions: seq<Region>, k: nat)
    requires k <= |regions| && FillRegions(entry, naming, acc, freq, month, regions[..k]).Raised?
    ensures FillRegions(entry, naming, acc, freq, month, regions) == FillRegions(entry, naming, acc, freq, month, regions[..k])
    decreases |regions| - k
  {
    if k < |regions| {
      assert regions[..k + 1][..k] == regions[..k];
      RegionsRaisedSticks(entry, naming, acc, freq, month, regions, k + 1);
    } else {
      assert regions[..k] == regions;
    }
  }

  lemma {:induction false} MonthsRaisedSticks(entry: EntryFn, naming: NameFn, acc: Tables, freq: int, months: seq<int>,
                                              regions: seq<Region>, j: nat)
    requires j <= |months| && FillMonths(entry, naming, acc, freq, months[..j], regions).Raised?
    ensures FillMonths(entry, naming, acc, freq, months, regions) == FillMonths(entry, naming, acc, freq, months[..j], regions)
    decreases |months| - j
  {
    if j < |months| {
      assert months[..j + 1][..j] == months[..j];
      MonthsRaisedSticks(entry, naming, acc, freq, months, regions, j + 1);
    } else {
      assert months[..j] == months;
    }
  }

  lemma {:induction false} FreqsRaisedSticks(entry: EntryFn, naming: NameFn, acc: Tables, freqs: seq<int>, months: seq<int>,
                                             regions: seq<Region>, i: nat)
    requires i <= |freqs| && FillFreqs(entry, naming, acc, freqs[..i], months, regions).Raised?
    ensures FillFreqs(entry, naming, acc, freqs, months, regions) == FillFreqs(entry, naming, acc, freqs[..i], months, regions)
    decreases |freqs| - i
  {
    if i < |freqs| {
      assert freqs[..i + 1][..i] == freqs[..i];
      FreqsRaisedSticks(entry, naming, acc, freqs, months, regions, i + 1);
    } else {
      assert freqs[..i] == freqs;
    }
  }

  lemma RegionsStep(entry: EntryFn, naming: NameFn, acc: Tables, freq: int, month: int,
                    regions: seq<Region>, k: nat, e: Error)
    requires k < |regions| && FillRegions(entry, naming, acc, freq, month, regions[..k]).Ok?
    requires entry(freq, month, regions[k]) == Raised(e)
    ensures FillRegions(entry, naming, acc, freq, month, regions) == Raised(e)
  {
    assert regions[..k + 1][..k] == regions[..k];
    RegionsRaisedSticks(entry, naming, acc, freq, month, regions, k + 1);
  }

  lemma MonthsStep(entry: EntryFn, naming: NameFn, acc: Tables, freq: int, months: seq<int>,
                   regions: seq<Region>, j: nat, atMonth: Tables, e: Error)
    requires j < |months| && FillMonths(entry, naming, acc, freq, months[..j], regions) == Ok(atMonth)
    requires FillRegions(entry, naming, atMonth, freq, months[j], regions) == Raised(e)
    ensures FillMonths(entry, naming, acc, freq, months, regions) == Raised(e)
  {
    assert months[..j + 1][..j] == months[..j];
    MonthsRaisedSticks(entry, naming, acc, freq, months, regions, j + 1);
  }

  lemma FreqsStep(entry: EntryFn, naming: NameFn, acc: Tables, freqs: seq<int>, months: seq<int>,
                  regions: seq<Region>, i: nat, atFreq: Tables, e: Error)
    requires i < |freqs| && FillFreqs(entry, naming, acc, freqs[..i], months, regions) == Ok(atFreq)
    requires FillMonths(entry, naming, atFreq, freqs[i], months, regions) == Raised(e)
    ensures FillFreqs(entry, naming, acc, freqs, months, regions) == Raised(e)
  {
    assert freqs[..i + 1][..i] == freqs[..i];
    FreqsRaisedSticks(entry, naming, acc, freqs, months, regions, i + 1);
  }

  /** One more region whose entry succeeds stores that entry under its name. */
  lemma RegionsStepOk(entry: EntryFn, naming: NameFn, acc: Tables, freq: int, month: int,
                      regions: seq<Region>, k: nat, m: Tables, t: Table)
    requires k < |regions| && FillRegions(entry, naming, acc, freq, month, regions[..k]) == Ok(m)
    requires entry(freq, month, regions[k]) == Ok(t)
    ensures FillRegions(entry, naming, acc, freq, month, regions[..k + 1]) == Ok(m[naming(freq, month, regions[k].key) := t])
  {
    assert regions[..k + 1][..k] == regions[..k];
  }

  /** One more month runs the region loop from the dictionary the earlier months built. */
  lemma MonthsStepOk(entry: EntryFn, naming: NameFn, acc: Tables, freq: int, months: seq<int>,
                     regions: seq<Region>, j: nat, m: Tables)
    requires j < |months| && FillMonths(entry, naming, acc, freq, months[..j], regions) == Ok(m)
    ensures FillMonths(entry, naming, acc, freq, months[..j + 1], regions) == FillRegions(entry, naming, m, freq, months[j], regions)
  {
    assert months[..j + 1][..j] == months[..j];
  }

  /** One more frequency runs the month loop from the dictionary the earlier frequencies built. */
  lemma FreqsStepOk(entry: EntryFn, naming: NameFn, acc: Tables, freqs: seq<int>, months: seq<int>,
                    regions: seq<Region>, i: nat, m: Tables)
    requires i < |freqs| && FillFreqs(entry, naming, acc, freqs[..i], months, regions) == Ok(m)
    ensures FillFreqs(entry, naming, acc, freqs[..i + 1], months, regions) == FillMonths(entry, naming, m, freqs[i], months, regions)
  {
    assert freqs[..i + 1][..i] == freqs[..i];
  }

  // ---------------------------------------------------------------------------
  // Table names are unambiguous.
  // ---------------------------------------------------------------------------

  lemma StripPrefix(p: string, x: string, y: string)
    requires p + x == p + y
    ensures x == y
  {
    assert x == (p + x)[|p|..];
    assert y == (p + y)[|p|..];
  }

  /** If `a` and `b` are followed by tails starting with `_`, then `b` contains `_` or is no longer than `a`. */
  lemma SeparatorNotEarlier(a: string, x: string, b: string, y: string)
    requires |x| > 0 && x[0] == '_'
    requires a + x == b + y
    ensures '_' in b || |b| <= |a|
  {
    if |a| < |b| {
      assert b[|a|] == (b + y)[|a|] == (a + x)[|a|] == '_';
    }
  }

  /** Two underscore-free words each followed by an underscore-led tail split the same way. */
  lemma SplitAtSeparator(a: string, x: string, b: string, y: string)
    requires '_' !in a && '_' !in b
    requires |x| > 0 && x[0] == '_' && |y| > 0 && y[0] == '_'
    requires a + x == b + y
    ensures a == b && x == y
  {
    SeparatorNotEarlier(a, x, b, y);
    SeparatorNotEarlier(b, y, a, x);
    assert a == (a + x)[..|a|];
    assert b == (b + y)[..|b|];
    assert x == (a + x)[|a|..];
    assert y == (b + y)[|b|..];
  }

  /**
   * Different (frequency, month, region key) triples of one mode get
   * different table names, so no entry overwrites another triple's entry.
   */
  lemma TableNameInjective(f1: int, mo1: int, k1: string, f2: int, mo2: int, k2: string, mode: int)
    requires TableName(f1, mode, mo1, k1) == TableName(f2, mode, mo2, k2)
    ensures f1 == f2 && mo1 == mo2 && k1 == k2
  {
    var m := IntToString(mode);
    var d1 := "_region_" + (k1 + "_table");
    var d2 := "_region_" + (k2 + "_table");
    var c1 := IntToString(mo1) + d1;
    var c2 := IntToString(mo2) + d2;
    var b1 := "_mode_" + (m + ("_month_" + c1));
    var b2 := "_mode_" + (m + ("_month_" + c2));
    StripPrefix("output_freq_", IntToString(f1) + b1, IntToString(f2) + b2);
    NoUnderscore(f1);
    NoUnderscore(f2);
    SplitAtSeparator(IntToString(f1), b1, IntToString(f2), b2);
    IntToStringInjective(f1, f2);
    StripPrefix("_mode_", m + ("_month_" + c1), m + ("_month_" + c2));
    StripPrefix(m, "_month_" + c1, "_month_" + c2);
    StripPrefix("_month_", c1, c2);
    NoUnderscore(mo1);
    NoUnderscore(mo2);
    SplitAtSeparator(IntToString(mo1), d1, IntToString(mo2), d2);
    IntToStringInjective(mo1, mo2);
    StripPrefix("_region_", k1 + "_table", k2 + "_table");
    assert k1 == (k1 + "_table")[..|k1|];
    assert k2 == (k2 + "_table")[..|k2|];
  }

  lemma NamesInjective(mode: int)
    ensures NamingInjective(NamesOf(mode))
  {
    forall f1, mo1, k1, f2, mo2, k2 | NamesOf(mode)(f1, mo1, k1) == NamesOf(mode)(f2, mo2, k2)
      ensures f1 == f2 && mo1 == mo2 && k1 == k2
    {
      TableNameInjective(f1, mo1, k1, f2, mo2, k2, mode);
    }
  }

  // ---------------------------------------------------------------------------
  // What one entry is.
  // ---------------------------------------------------------------------------

  /** A labelled entry fails only when its `get_data` call fails, and then with that call's exception. */
  lemma EntryFails(c: Config, freq: int, month: int, region: Region)
    ensures Entry(c, freq, month, region).Raised? <==>
      FetchRow(c.respond(freq, month, region.key), QueryFor(c, freq, month)).Raised?
    ensures Entry(c, freq, month, region).Raised? ==>
      Entry(c, freq, month, region) == FetchRow(c.respond(freq, month, region.key), QueryFor(c, freq, month))
  {
    var row := FetchRow(c.respond(freq, month, region.key), QueryFor(c, freq, month));
    if row.Ok? {
      FetchRowHasNoAdminName(c.respond(freq, month, region.key), QueryFor(c, freq, month));
    }
  }

  /**
   * A failed export request does not make the insert fail: `get_data` gives
   * the empty table, and inserting `Admin Name` into it gives that one
   * column and no rows.
   */
  lemma EntryOnFailedFetch(c: Config, freq: int, month: int, region: Region)
    requires c.respond(freq, month, region.key).status != 200
    ensures Entry(c, freq, month, region) == Ok(Table([AdminNameColumn], []))
  {
    assert FetchRow(c.respond(freq, month, region.key), QueryFor(c, freq, month)) == Ok(Empty);
    var t := InsertFirst(Empty, AdminNameColumn, Text(region.name)).value;
    assert [AdminNameColumn] + Empty.columns == [AdminNameColumn];
    assert |t.rows| == 0;
  }

  /**
   * A labelled entry is the fetched table with `Admin Name` first, holding
   * the region's label in every row, and every other column unchanged.
   */
  lemma EntryLabelled(c: Config, freq: int, month: int, region: Region, other: string)
    requires Entry(c, freq, month, region).Ok?
    ensures var t := Entry(c, freq, month, region).value;
      var row := FetchRow(c.respond(freq, month, region.key), QueryFor(c, freq, month));
      && row.Ok?
      && t.columns == [AdminNameColumn] + row.value.columns
      && |t.rows| == |row.value.rows|
      && (forall i :: 0 <= i < |t.rows| ==> t.rows[i] == [Text(region.name)] + row.value.rows[i])
      && (WellFormed(row.value) && |t.rows| > 0 ==>
            && Lookup(t, AdminNameColumn) == Some(Text(region.name))
            && (other != AdminNameColumn ==> Lookup(t, other) == Lookup(row.value, other)))
  {
    var row := FetchRow(c.respond(freq, month, region.key), QueryFor(c, freq, month));
    EntryFails(c, freq, month, region);
    if WellFormed(row.value) && |row.value.rows| > 0 {
      InsertFirstLookup(row.value, AdminNameColumn, Text(region.name), other);
    }
  }

  // ---------------------------------------------------------------------------
  // What the loops produce.
  // ---------------------------------------------------------------------------

  /** The region loop succeeds exactly when every region's entry does, whatever it starts from. */
  lemma {:induction false} FillRegionsOk(entry: EntryFn, naming: NameFn, acc: Tables, freq: int, month: int,
                                         regions: seq<Region>)
    ensures FillRegions(entry, naming, acc, freq, month, regions).Ok? <==>
      forall r :: r in regions ==> entry(freq, month, r).Ok?
    ensures FillRegions(entry, naming, acc, freq, month, regions).Raised? ==>
      exists r :: r in regions && entry(freq, month, r) == Raised(FillRegions(entry, naming, acc, freq, month, regions).error)
    decreases |regions|
  {
    if regions != [] {
      var init := regions[..|regions| - 1];
      FillRegionsOk(entry, naming, acc, freq, month, init);
      assert regions == init + [regions[|regions| - 1]];
    }
  }

  lemma {:induction false} FillMonthsOk(entry: EntryFn, naming: NameFn, acc: Tables, freq: int, months: seq<int>,
                                        regions: seq<Region>)
    ensures FillMonths(entry, naming, acc, freq, months, regions).Ok? <==>
      forall mo, r :: mo in months && r in regions ==> entry(freq, mo, r).Ok?
    ensures FillMonths(entry, naming, acc, freq, months, regions).Raised? ==>
      exists mo, r :: mo in months && r in regions
        && entry(freq, mo, r) == Raised(FillMonths(entry, naming, acc, freq, months, regions).error)
    decreases |months|
  {
    if months != [] {
      var init := months[..|months| - 1];
      var last := months[|months| - 1];
      FillMonthsOk(entry, naming, acc, freq, init, regions);
      assert months == init + [last];
      match FillMonths(entry, naming, acc, freq, init, regions)
      case Raised(_) =>
      case Ok(m) =>
        FillRegionsOk(entry, naming, m, freq, last, regions);
    }
  }

  /**
   * The loops succeed exactly when the entry of every (frequency, month,
   * region) does; when they raise, they raise the exception of one of those
   * entries.
   */
  lemma {:induction false} FillFreqsOk(entry: EntryFn, naming: NameFn, acc: Tables, freqs: seq<int>, months: seq<int>,
                                       regions: seq<Region>)
    ensures FillFreqs(entry, naming, acc, freqs, months, regions).Ok? <==>
      forall f, mo, r :: f in freqs && mo in months && r in regions ==> entry(f, mo, r).Ok?
    ensures FillFreqs(entry, naming, acc, freqs, months, regions).Raised? ==>
      exists f, mo, r :: f in freqs && mo in months && r in regions
        && entry(f, mo, r) == Raised(FillFreqs(entry, naming, acc, freqs, months, regions).error)
    decreases |freqs|
  {
    if freqs != [] {
      var init := freqs[..|freqs| - 1];
      var last := freqs[|freqs| - 1];
      FillFreqsOk(entry, naming, acc, init, months, regions);
      assert freqs == init + [last];
      match FillFreqs(entry, naming, acc, init, months, regions)
      case Raised(_) =>
      case Ok(m) =>
        FillMonthsOk(entry, naming, m, last, months, regions);
    }
  }

  /** The keys after the region loop: those before, plus one name per region; other keys keep their tables. */
  lemma {:induction false} FillRegionsKeys(entry: EntryFn, naming: NameFn, acc: Tables, freq: int, month: int,
                                           regions: seq<Region>, name: string)
    requires FillRegions(entry, naming, acc, freq, month, regions).Ok?
    ensures var m := FillRegions(entry, naming, acc, freq, month, regions).value;
      (name in m) <==> (name in acc || exists r :: r in regions && name == naming(freq, month, r.key))
    ensures var m := FillRegions(entry, naming, acc, freq, month, regions).value;
      (name in acc && forall r :: r in regions ==> name != naming(freq, month, r.key)) ==>
        name in m && m[name] == acc[name]
    decreases |regions|
  {
    if regions != [] {
      var init := regions[..|regions| - 1];
      FillRegionsKeys(entry, naming, acc, freq, month, init, name);
      assert regions == init + [regions[|regions| - 1]];
    }
  }

  lemma {:induction false} FillMonthsKeys(entry: EntryFn, naming: NameFn, acc: Tables, freq: int, months: seq<int>,
                                          regions: seq<Region>, name: string)
    requires FillMonths(entry, naming, acc, freq, months, regions).Ok?
    ensures var m := FillMonths(entry, naming, acc, freq, months, regions).value;
      (name in m) <==>
        (name in acc || exists mo, r :: mo in months && r in regions && name == naming(freq, mo, r.key))
    ensures var m := FillMonths(entry, naming, acc, freq, months, regions).value;
      (name in acc && forall mo, r :: mo in months && r in regions ==> name != naming(freq, mo, r.key)) ==>
        name in m && m[name] == acc[name]
    decreases |months|
  {
    if months != [] {
      var init := months[..|months| - 1];
      var last := months[|months| - 1];
      FillMonthsKeys(entry, naming, acc, freq, init, regions, name);
      assert months == init + [last];
      var m0 := FillMonths(entry, naming, acc, freq, init, regions).value;
      var m := FillMonths(entry, naming, acc, freq, months, regions).value;
      FillRegionsKeys(entry, naming, m0, freq, last, regions, name);
      if name in m && name !in acc {
        if name in m0 {
          var mo, r :| mo in init && r in regions && name == naming(freq, mo, r.key);
          assert mo in months;
        } else {
          var r :| r in regions && name == naming(freq, last, r.key);
          assert last in months;
        }
      }
      if exists mo, r :: mo in months && r in regions && name == naming(freq, mo, r.key) {
        var mo, r :| mo in months && r in regions && name == naming(freq, mo, r.key);
        if mo != last {
          assert mo in init;
        }
      }
      if name in acc && forall mo, r :: mo in months && r in regions ==> name != naming(freq, mo, r.key) {
        forall mo, r | mo in init && r in regions ensures name != naming(freq, mo, r.key) {
          assert mo in months;
        }
        assert last in months;
      }
    }
  }

  /**
   * The keys after all three loops: those already there plus exactly one
   * name per (frequency, month, region) triple.
   */
  lemma {:induction false} FillFreqsKeys(entry: EntryFn, naming: NameFn, acc: Tables, freqs: seq<int>, months: seq<int>,
                                         regions: seq<Region>, name: string)
    requires FillFreqs(entry, naming, acc, freqs, months, regions).Ok?
    ensures var m := FillFreqs(entry, naming, acc, freqs, months, regions).value;
      (name in m) <==>
        (name in acc ||
         exists f, mo, r :: f in freqs && mo in months && r in regions && name == naming(f, mo, r.key))
    decreases |freqs|
  {
    if freqs != [] {
      var n := |freqs| - 1;
      var init := freqs[..n];
      FillFreqsKeys(entry, naming, acc, init, months, regions, name);
      var m0 := FillFreqs(entry, naming, acc, init, months, regions).value;
      FreqsStepOk(entry, naming, acc, freqs, months, regions, n, m0);
      assert freqs[..n + 1] == freqs;
      FillMonthsKeys(entry, naming, m0, freqs[n], months, regions, name);
      NamedSplit(naming, freqs, months, regions, name);
    }
  }

  /** A triple drawn from `freqs` draws its frequency from all but the last, or is the last. */
  lemma NamedSplit(naming: NameFn, freqs: seq<int>, months: seq<int>, regions: seq<Region>, name: string)
    requires freqs != []
    ensures (exists f, mo, r :: f in freqs && mo in months && r in regions && name == naming(f, mo, r.key)) <==>
      ((exists f, mo, r :: f in freqs[..|freqs| - 1] && mo in months && r in regions && name == naming(f, mo, r.key))
       || (exists mo, r :: mo in months && r in regions && name == naming(freqs[|freqs| - 1], mo, r.key)))
  {
    NamedSplitDown(naming, freqs, months, regions, name);
    NamedSplitUp(naming, freqs, months, regions, name);
  }

  lemma NamedSplitDown(naming: NameFn, freqs: seq<int>, months: seq<int>, regions: seq<Region>, name: string)
    requires freqs != []
    ensures (exists f, mo, r :: f in freqs && mo in months && r in regions && name == naming(f, mo, r.key)) ==>
      ((exists f, mo, r :: f in freqs[..|freqs| - 1] && mo in months && r in regions && name == naming(f, mo, r.key))
       || (exists mo, r :: mo in months && r in regions && name == naming(freqs[|freqs| - 1], mo, r.key)))
  {
    if exists f, mo, r :: f in freqs && mo in months && r in regions && name == naming(f, mo, r.key) {
      var f, mo, r :| f in freqs && mo in months && r in regions && name == naming(f, mo, r.key);
      var k :| 0 <= k < |freqs| && freqs[k] == f;
      if k < |freqs| - 1 {
        assert freqs[..|freqs| - 1][k] == f;
      }
    }
  }

  lemma NamedSplitUp(naming: NameFn, freqs: seq<int>, months: seq<int>, regions: seq<Region>, name: string)
    requires freqs != []
    ensures (exists f, mo, r :: f in freqs[..|freqs| - 1] && mo in months && r in regions && name == naming(f, mo, r.key))
      ==> (exists f, mo, r :: f in freqs && mo in months && r in regions && name == naming(f, mo, r.key))
    ensures (exists mo, r :: mo in months && r in regions && name == naming(freqs[|freqs| - 1], mo, r.key))
      ==> (exists f, mo, r :: f in freqs && mo in months && r in regions && name == naming(f, mo, r.key))
  {
    var init := freqs[..|freqs| - 1];
    var last := freqs[|freqs| - 1];
    if exists f, mo, r :: f in init && mo in months && r in regions && name == naming(f, mo, r.key) {
      var f, mo, r :| f in init && mo in months && r in regions && name == naming(f, mo, r.key);
      var k :| 0 <= k < |init| && init[k] == f;
      assert freqs[k] == f;
      assert f in freqs && mo in months && r in regions && name == naming(f, mo, r.key);
    }
    if exists mo, r :: mo in months && r in regions && name == naming(last, mo, r.key) {
      var mo, r :| mo in months && r in regions && name == naming(last, mo, r.key);
      assert last in freqs && mo in months && r in regions && name == naming(last, mo, r.key);
    }
  }

  /** Region `i` is the last one carrying its key. */
  predicate LastOfKey(regions: seq<Region>, i: nat)
  {
    i < |regions| && forall j :: i < j < |regions| ==> regions[j].key != regions[i].key
  }

  lemma {:induction false} FillRegionsValue(entry: EntryFn, naming: NameFn, acc: Tables, freq: int, month: int,
                                            regions: seq<Region>, i: nat)
    requires NamingInjective(naming)
    requires FillRegions(entry, naming, acc, freq, month, regions).Ok? && LastOfKey(regions, i)
    ensures var m := FillRegions(entry, naming, acc, freq, month, regions).value;
      var name := naming(freq, month, regions[i].key);
      && entry(freq, month, regions[i]).Ok?
      && name in m && m[name] == entry(freq, month, regions[i]).value
    decreases |regions|
  {
    var n := |regions| - 1;
    var init := regions[..n];
    if i < n {
      assert LastOfKey(init, i);
      FillRegionsValue(entry, naming, acc, freq, month, init, i);
    }
  }

  lemma {:induction false} FillMonthsValue(entry: EntryFn, naming: NameFn, acc: Tables, freq: int, months: seq<int>,
                                           regions: seq<Region>, month: int, i: nat)
    requires NamingInjective(naming)
    requires FillMonths(entry, naming, acc, freq, months, regions).Ok? && month in months && LastOfKey(regions, i)
    ensures var m := FillMonths(entry, naming, acc, freq, months, regions).value;
      var name := naming(freq, month, regions[i].key);
      && entry(freq, month, regions[i]).Ok?
      && name in m && m[name] == entry(freq, month, regions[i]).value
    decreases |months|
  {
    var n := |months| - 1;
    var init := months[..n];
    var last := months[n];
    var m0 := FillMonths(entry, naming, acc, freq, init, regions).value;
    if month == last {
      FillRegionsValue(entry, naming, m0, freq, last, regions, i);
    } else {
      var name := naming(freq, month, regions[i].key);
      assert months == init + [last];
      FillMonthsValue(entry, naming, acc, freq, init, regions, month, i);
      forall r | r in regions ensures name != naming(freq, last, r.key) {
      }
      FillRegionsKeys(entry, naming, m0, freq, last, regions, name);
    }
  }

  /**
   * The value after all three loops: for every frequency and month listed
   * and the last region carrying a given key, the table under their name is
   * that region's entry.
   */
  lemma {:induction false} FillFreqsValue(entry: EntryFn, naming: NameFn, acc: Tables, freqs: seq<int>, months: seq<int>,
                                          regions: seq<Region>, freq: int, month: int, i: nat)
    requires NamingInjective(naming)
    requires FillFreqs(entry, naming, acc, freqs, months, regions).Ok?
    requires freq in freqs && month in months && LastOfKey(regions, i)
    ensures var m := FillFreqs(entry, naming, acc, freqs, months, regions).value;
      var name := naming(freq, month, regions[i].key);
      && entry(freq, month, regions[i]).Ok?
      && name in m && m[name] == entry(freq, month, regions[i]).value
    decreases |freqs|
  {
    var n := |freqs| - 1;
    var init := freqs[..n];
    var last := freqs[n];
    var m0 := FillFreqs(entry, naming, acc, init, months, regions).value;
    if freq == last {
      FillMonthsValue(entry, naming, m0, last, months, regions, month, i);
    } else {
      var name := naming(freq, month, regions[i].key);
      assert freqs == init + [last];
      FillFreqsValue(entry, naming, acc, init, months, regions, freq, month, i);
      forall mo, r | mo in months && r in regions ensures name != naming(last, mo, r.key) {
      }
      FillMonthsKeys(entry, naming, m0, last, months, regions, name);
    }
  }

  // ---------------------------------------------------------------------------
  // The whole call.
  // ---------------------------------------------------------------------------

  /**
   * The shape of the result: a single outer key `admin{mode}_tables`; a
   * failed regions request raises the ValueError exactly when both loops
   * run, and otherwise gives an empty inner dictionary. A regions answer
   * with no region, or a filter asked for without a key list, raises in
   * `get_admin_data`, before any loop runs.
   */
  lemma TriggerTablesOuter(c: Config, freqs: seq<int>, months: seq<int>, admin: AdminResponse,
                           needValidKeys: bool, validKeys: Option<seq<string>>)
    ensures var r := TriggerTables(c, freqs, months, admin, needValidKeys, validKeys);
      && (r.Ok? ==> r.value.Keys == {AdminTablesName(c.mode)})
      && (admin.status != 200 ==>
            r == if |freqs| > 0 && |months| > 0 then Raised(ValueError(UnexpectedAdminData))
                 else Ok(map[AdminTablesName(c.mode) := map[]]))
      && (admin.status == 200 && admin.regions == [] ==>
            r == Raised(ValueError(ColumnsMismatch)))
      && (admin.status == 200 && admin.regions != [] && c.mode != 0 && needValidKeys && validKeys.None? ==>
            r == Raised(TypeError(IsinNotListLike)))
  {
  }

  /**
   * With `regions` the table the regions request resolved to, the call
   * succeeds exactly when the `get_data` call of every (frequency, month,
   * region) does, and otherwise raises one of those calls' exceptions.
   */
  lemma TriggerTablesFails(c: Config, freqs: seq<int>, months: seq<int>, admin: AdminResponse,
                           needValidKeys: bool, validKeys: Option<seq<string>>, regions: seq<Region>)
    requires GetAdminData(admin.status, admin.regions, c.mode, needValidKeys, validKeys) == Ok(Some(regions))
    ensures var r := TriggerTables(c, freqs, months, admin, needValidKeys, validKeys);
      r.Ok? <==> forall f, mo, reg :: f in freqs && mo in months && reg in regions ==>
        FetchRow(c.respond(f, mo, reg.key), QueryFor(c, f, mo)).Ok?
    ensures var r := TriggerTables(c, freqs, months, admin, needValidKeys, validKeys);
      r.Raised? ==>
        exists f, mo, reg :: f in freqs && mo in months && reg in regions
          && FetchRow(c.respond(f, mo, reg.key), QueryFor(c, f, mo)) == Raised(r.error)
  {
    var entry := EntryOf(c);
    var naming := NamesOf(c.mode);
    var filled := FillFreqs(entry, naming, map[], freqs, months, regions);
    FillFreqsOk(entry, naming, map[], freqs, months, regions);
    if filled.Ok? {
      forall f, mo, reg | f in freqs && mo in months && reg in regions
        ensures FetchRow(c.respond(f, mo, reg.key), QueryFor(c, f, mo)).Ok?
      {
        assert entry(f, mo, reg).Ok?;
        EntryFails(c, f, mo, reg);
      }
    } else {
      var f, mo, reg :| f in freqs && mo in months && reg in regions && entry(f, mo, reg) == Raised(filled.error);
      EntryFails(c, f, mo, reg);
    }
  }

  /**
   * The contents of a successful result, with `regions` the table the
   * regions request resolved to: one inner key per (frequency, month,
   * region) triple and no other, and under each the labelled `get_data`
   * table of that triple (for a repeated key, of the last region carrying it).
   */
  lemma TriggerTablesContents(c: Config, freqs: seq<int>, months: seq<int>, admin: AdminResponse,
                              needValidKeys: bool, validKeys: Option<seq<string>>,
                              regions: seq<Region>, name: string, freq: int, month: int, i: nat)
    requires GetAdminData(admin.status, admin.regions, c.mode, needValidKeys, validKeys) == Ok(Some(regions))
    requires TriggerTables(c, freqs, months, admin, needValidKeys, validKeys).Ok?
    ensures var inner := TriggerTables(c, freqs, months, admin, needValidKeys, validKeys).value[AdminTablesName(c.mode)];
      && ((name in inner) <==>
            (exists f, mo, reg :: f in freqs && mo in months && reg in regions
               && name == TableName(f, c.mode, mo, reg.key)))
      && (freq in freqs && month in months && LastOfKey(regions, i) ==>
            var key := TableName(freq, c.mode, month, regions[i].key);
            && Entry(c, freq, month, regions[i]).Ok?
            && key in inner && inner[key] == Entry(c, freq, month, regions[i]).value)
  {
    var entry := EntryOf(c);
    var naming := NamesOf(c.mode);
    FillFreqsKeys(entry, naming, map[], freqs, months, regions, name);
    if freq in freqs && month in months && LastOfKey(regions, i) {
      NamesInjective(c.mode);
      FillFreqsValue(entry, naming, map[], freqs, months, regions, freq, month, i);
    }
  }
}
