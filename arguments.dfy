/** The command-line options the harvest depends on, and the checks that
    reject bad combinations before any page is visited. Dates are modelled
    as integers that order like the dates they stand for. */
module Arguments {
  import opened Wrappers

  /** The options that drive one run. */
  datatype Config = Config(
    startFromUrl: bool,     // --start_from_url
    maxDate: Option<int>,   // --max_date
    minDate: Option<int>,   // --min_date
    limit: int              // --limit
  )

  /** The reasons a run is refused. */
  datatype ConfigError =
    | DateBoundWithoutStartUrl  // a date bound given without --start_from_url
    | BothDateBounds            // --max_date and --min_date together
    | MinDateNeedsDescending    // --min_date on a listing sorted ascending
    | MaxDateNeedsAscending     // --max_date on a listing sorted descending

  /** The start-up check of the option combination. The missing start URL is
      reported first, so it wins when both rules are broken. */
  function CheckArguments(c: Config): (r: Outcome<ConfigError>)
    ensures r == Fail(DateBoundWithoutStartUrl) <==>
              !c.startFromUrl && (c.maxDate.Some? || c.minDate.Some?)
    ensures r == Fail(BothDateBounds) <==>
              c.startFromUrl && c.maxDate.Some? && c.minDate.Some?
    ensures r.Pass? <==>
              (c.maxDate.None? && c.minDate.None?) ||
              (c.startFromUrl && (c.maxDate.None? || c.minDate.None?))
  {
    if !c.startFromUrl && (c.maxDate.Some? || c.minDate.Some?) then
      Fail(DateBoundWithoutStartUrl)
    else if c.maxDate.Some? && c.minDate.Some? then
      Fail(BothDateBounds)
    else
      Pass
  }

  /** The check, made when a date bound is set in resume mode, that the
      listing is sorted the way the bound needs: ascending for a maximum,
      descending for a minimum. `ascending` is what the listing URL's
      `sort.ascending` parameter says. */
  function VerifyDateSorting(c: Config, ascending: bool): (r: Outcome<ConfigError>)
    ensures r == Fail(MinDateNeedsDescending) <==> c.minDate.Some? && ascending
    ensures r == Fail(MaxDateNeedsAscending) <==>
              c.maxDate.Some? && !ascending && !(c.minDate.Some? && ascending)
    ensures CheckArguments(c).Pass? && (c.maxDate.Some? || c.minDate.Some?) ==>
              (r.Pass? <==> (c.maxDate.Some? && ascending) || (c.minDate.Some? && !ascending))
  {
    if c.minDate.Some? && ascending then
      Fail(MinDateNeedsDescending)
    else if c.maxDate.Some? && !ascending then
      Fail(MaxDateNeedsAscending)
    else
      Pass
  }
}
