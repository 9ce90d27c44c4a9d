/**
 * `get_admin_data`: the (key, label) table of administrative regions,
 * optionally narrowed to a caller-supplied list of valid keys.
 *
 * The HTTP exchange is a parameter: the status code and the `regions` list
 * of the parsed body. Region keys are compared as their text.
 */
module AdminKeys {
  import opened Outcomes
  import opened Sequences

  datatype Region = Region(key: string, name: string)  // the `key` and `label` columns

  /**
   * `df[df['key'].isin(valid_keys)]`: the regions whose key is valid, in the
   * answer's order, each as many times as the answer lists it.
   */
  function FilterKeys(regions: seq<Region>, validKeys: seq<string>): (r: seq<Region>)
    ensures |r| <= |regions|
    ensures forall x :: x in r <==> x in regions && x.key in validKeys
    ensures forall x :: multiset(r)[x] == if x.key in validKeys then multiset(regions)[x] else 0
    ensures IsSubsequence(r, regions)
  {
    var valid := (x: Region) => x.key in validKeys;
    FilterCounts(regions, valid);
    FilterInOrder(regions, valid);
    Filter(regions, valid)
  }

  /** What pandas raises when `apply(pd.Series)` on no regions yields no columns for `key` and `label`. */
  const ColumnsMismatch := "Columns must be same length as key"

  /** What pandas raises when `isin` is given `None` instead of a list. */
  const IsinNotListLike := "only list-like objects are allowed to be passed to isin()"

  /**
   * `get_admin_data` after the request: `None` for a non-200 status; a
   * ValueError when the answer lists no region, since splitting the empty
   * `regions` column gives no columns to assign; the regions narrowed to the
   * valid keys when the level is not 0 and the flag is set (`isin(None)`
   * raises a TypeError); otherwise every region.
   */
  function GetAdminData(status: int, regions: seq<Region>, level: int, needValidKeys: bool,
                        validKeys: Option<seq<string>>): (r: Outcome<Option<seq<Region>>>)
    ensures status != 200 ==> r == Ok(None)
    ensures status == 200 && regions == [] ==> r == Raised(ValueError(ColumnsMismatch))
    ensures status == 200 && regions != [] && (level == 0 || !needValidKeys) ==> r == Ok(Some(regions))
    ensures r.Raised? <==>
      status == 200 && (regions == [] || (level != 0 && needValidKeys && validKeys.None?))
  {
    if status != 200 then Ok(None)
    else if regions == [] then Raised(ValueError(ColumnsMismatch))
    else if level != 0 && needValidKeys then
      match validKeys
      case None => Raised(TypeError(IsinNotListLike))
      case Some(keys) => Ok(Some(FilterKeys(regions, keys)))
    else Ok(Some(regions))
  }

  /** When every key is valid, nothing is dropped. */
  lemma {:induction false} FilterKeysAllValid(regions: seq<Region>, validKeys: seq<string>)
    requires forall i :: 0 <= i < |regions| ==> regions[i].key in validKeys
    ensures FilterKeys(regions, validKeys) == regions
    decreases |regions|
  {
    FilterKeepsAll(regions, (x: Region) => x.key in validKeys);
  }

  /**
   * Every key `get_admin_data` returns is valid when filtering applies, and
   * the returned rows are a subsequence of the answer in every case.
   */
  lemma GetAdminDataSound(status: int, regions: seq<Region>, level: int, needValidKeys: bool,
                          validKeys: Option<seq<string>>)
    requires GetAdminData(status, regions, level, needValidKeys, validKeys).Ok?
    requires GetAdminData(status, regions, level, needValidKeys, validKeys).value.Some?
    ensures var kept := GetAdminData(status, regions, level, needValidKeys, validKeys).value.value;
      && IsSubsequence(kept, regions)
      && (level != 0 && needValidKeys ==> validKeys.Some? && forall r :: r in kept ==> r.key in validKeys.value)
  {
    if !(level != 0 && needValidKeys) {
      SubsequenceReflexive(regions);
    }
  }
}
