/**
 * The disabled-dates composable: the calendar-facing wrappers around the
 * evaluator, the earliest and latest enabled dates, and whether the
 * previous and next page buttons are disabled.
 *
 * `cfg` is the disabled-dates option, `None` when it is absent; the page
 * date, the view and the year range are passed in as plain values.
 */
module UseDisabledDates {
  import opened Wrappers
  import opened Calendar
  import opened DateUtils
  import opened CellUtils
  import opened DisabledDate

  /** A `to` or `from` rule that holds a valid Date. */
  predicate HasTo(cfg: Option<RuleBag>) {
    cfg.Some? && cfg.value.to.Set? && cfg.value.to.value.At?
  }

  predicate HasFrom(cfg: Option<RuleBag>) {
    cfg.Some? && cfg.value.from.Set? && cfg.value.from.value.At?
  }

  /** `disabledConfig.has`: every flag false when the option is absent. */
  function DisabledConfigHas(u: Utils, cfg: Option<RuleBag>): (h: Has)
    ensures h.to <==> HasTo(cfg)
    ensures h.from <==> HasFrom(cfg)
    ensures cfg.None? ==> !h.ranges && !h.specificDates && !h.daysOfWeek && !h.daysOfMonth && !h.customPredictor
    ensures cfg.Some? ==> (h.ranges <==> cfg.value.ranges.Set?) && (h.customPredictor <==> cfg.value.customPredictor.Some?)
  {
    if cfg.None? then Has(false, false, false, false, false, false, false)
    else GetConfig(u, cfg.value).has
  }

  /**
   * `earliestPossibleDate` and `latestPossibleDate`: `NoBound` for the
   * source's `null`, `Unseeded` when the seed is not a valid Date (the
   * source still searches from it, but only ever reads the result behind
   * the matching `has` flag).
   */
  datatype Bound = NoBound | Unseeded | Searched(result: Search)

  /** The earliest enabled date, searched from `to`. */
  function EarliestPossibleDate(u: Utils, cfg: Option<RuleBag>, fuel: nat): (b: Bound)
    ensures b == NoBound <==> cfg.None?
    ensures b.Searched? <==> HasTo(cfg)
    ensures b.Searched? && b.result.Found? ==>
      !RulesMatch(u, cfg.value, b.result.date) && b.result.date > cfg.value.to.value.ms && TimeOfDay(u, b.result.date) == 0
  {
    if cfg.None? then NoBound
    else if !HasTo(cfg) then Unseeded
    else
      var bag := cfg.value;
      assert Fires(ToRule, u, bag, bag.to.value.ms);
      EarliestAfterDisabledSeed(u, bag, bag.to.value.ms, fuel);
      Searched(GetEarliestPossibleDate(u, bag, bag.to.value.ms, fuel))
  }

  /** The latest enabled date, searched from `from`. */
  function LatestPossibleDate(u: Utils, cfg: Option<RuleBag>, fuel: nat): (b: Bound)
    ensures b == NoBound <==> cfg.None?
    ensures b.Searched? <==> HasFrom(cfg)
    ensures b.Searched? && b.result.Found? ==>
      !RulesMatch(u, cfg.value, b.result.date) && b.result.date < cfg.value.from.value.ms && TimeOfDay(u, b.result.date) == 0
  {
    if cfg.None? then NoBound
    else if !HasFrom(cfg) then Unseeded
    else
      var bag := cfg.value;
      assert Fires(FromRule, u, bag, bag.from.value.ms);
      LatestBeforeDisabledSeed(u, bag, bag.from.value.ms, fuel);
      Searched(GetLatestPossibleDate(u, bag, bag.from.value.ms, fuel))
  }

  // ---------------------------------------------------------------------
  // Page arithmetic

  /** `Math.floor(a / b)` on integers, for a nonzero `b` of either sign. */
  function FloorDiv(a: int, b: int): (q: int)
    requires b != 0
    ensures b > 0 ==> b * q <= a < b * q + b
    ensures b < 0 ==> b * q + b < a <= b * q
  {
    if b > 0 then a / b else (-a) / (-b)
  }

  /** `pageDecadeStart`: the page year rounded down to a multiple of the year range. */
  function DecadeStart(year: int, yearRange: int): (s: int)
    requires yearRange != 0
    ensures yearRange > 0 ==> s <= year < s + yearRange
    ensures yearRange < 0 ==> s + yearRange < year <= s
  {
    FloorDiv(year, yearRange) * yearRange
  }

  /** `pageDecadeEnd`: the last year of the page's year range. */
  function PageDecadeEnd(u: Utils, page: int, yearRange: int): int
    requires yearRange != 0
  {
    DecadeStart(PageYear(u, page), yearRange) + yearRange - 1
  }

  /** `pageYear`. */
  function PageYear(u: Utils, page: int): int {
    GetFullYear(u, page)
  }

  /**
   * The instant the latest enabled date is compared against (strictly
   * below) for the next button; `None` where the source compares against
   * an Invalid Date (a zero year range divides by zero).
   */
  function NextThreshold(u: Utils, view: View, page: int, yearRange: int): Option<int> {
    match view
    case DayView => Some(SetMonth(u, page, GetMonth(u, page) + 1))
    case MonthView => Some(LocalDate(u, PageYear(u, page), 11, 31) + 1)
    case _ =>
      if yearRange == 0 then None
      else Some(LocalDate(u, PageDecadeEnd(u, page, yearRange) + 1, 0, 1))
  }

  /** The instant the earliest enabled date is compared against (strictly above) for the previous button. */
  function PreviousThreshold(u: Utils, view: View, page: int, yearRange: int): Option<int> {
    match view
    case DayView => Some(SetDate(u, page, 0))
    case MonthView => Some(LocalDate(u, PageYear(u, page), 0, 1) - 1)
    case _ =>
      if yearRange == 0 then None
      else Some(LocalDate(u, DecadeStart(PageYear(u, page), yearRange) - 1, 11, 31))
  }

  // ---------------------------------------------------------------------
  // Page buttons

  /** A search that found a date strictly before a threshold. */
  predicate FoundBelow(b: Bound, x: Option<int>) {
    b.Searched? && b.result.Found? && x.Some? && b.result.date < x.value
  }

  /** A search that found a date strictly after a threshold. */
  predicate FoundAbove(b: Bound, x: Option<int>) {
    b.Searched? && b.result.Found? && x.Some? && b.result.date > x.value
  }

  /** The view-by-view comparison of `isNextDisabled` for a found latest date `l`. */
  function BeforeNextPage(u: Utils, l: int, view: View, page: int, yearRange: int): (r: bool)
    ensures r <==> NextThreshold(u, view, page, yearRange).Some? && l < NextThreshold(u, view, page, yearRange).value
  {
    match view
    case DayView =>
      var firstOfNextMonth := SetMonth(u, page, GetMonth(u, page) + 1);
      l < firstOfNextMonth
    case MonthView =>
      l <= LocalDate(u, PageYear(u, page), 11, 31)
    case _ =>
      if yearRange == 0 then false
      else
        var firstDayOfNextDecade := LocalDate(u, PageDecadeEnd(u, page, yearRange) + 1, 0, 1);
        l < firstDayOfNextDecade
  }

  /** The view-by-view comparison of `isPreviousDisabled` for a found earliest date `e`. */
  function AfterPreviousPage(u: Utils, e: int, view: View, page: int, yearRange: int): (r: bool)
    ensures r <==> PreviousThreshold(u, view, page, yearRange).Some? && e > PreviousThreshold(u, view, page, yearRange).value
  {
    match view
    case DayView =>
      var lastOfPreviousMonth := SetDate(u, page, 0);
      e > lastOfPreviousMonth
    case MonthView =>
      e >= LocalDate(u, PageYear(u, page), 0, 1)
    case _ =>
      if yearRange == 0 then false
      else e > LocalDate(u, DecadeStart(PageYear(u, page), yearRange) - 1, 11, 31)
  }

  /** A midnight comes before another mode midnight exactly when its day does. */
  lemma MidnightBefore(u: Utils, t: int, z: int)
    requires TimeOfDay(u, t) == 0
    ensures t < ModeMidnight(u, z) <==> DayIndex(u, t) < z
  {
    ModeTimeOf(u, t);
  }

  /** In local mode, from year 100 on, `new Date(y, m, 1)` is a midnight on the 1st of month `m` of year `y`. */
  lemma PageStart(u: Utils, y: int, m: int)
    requires !u.useUtc && y >= 100 && 0 <= m < 12
    ensures Fields(u, LocalDate(u, y, m, 1)) == Civil(y, m, 1)
    ensures TimeOfDay(u, LocalDate(u, y, m, 1)) == 0
  {
    LocalDateInLocalMode(u, y, m, 1);
    ModeDateFields(u, y, m, 1);
  }

  /**
   * In local mode, on a page that starts at midnight on the 1st of month
   * `m` of year `y` (from year 100 on), a latest enabled midnight `l` is
   * below the next-page threshold exactly when its day comes before the
   * first day of the next page: the next month, the next year, or the
   * first year of the next year range.
   */
  lemma NextPageBoundary(u: Utils, y: int, m: int, yearRange: int, l: int)
    requires !u.useUtc && y >= 100 && 0 <= m < 12 && TimeOfDay(u, l) == 0
    ensures BeforeNextPage(u, l, DayView, LocalDate(u, y, m, 1), yearRange) <==> DayIndex(u, l) < MakeDay(y, m + 1, 1)
    ensures BeforeNextPage(u, l, MonthView, LocalDate(u, y, m, 1), yearRange) <==> DayIndex(u, l) < MakeDay(y + 1, 0, 1)
    ensures yearRange > 0 ==>
      (BeforeNextPage(u, l, YearView, LocalDate(u, y, m, 1), yearRange) <==> DayIndex(u, l) < MakeDay(DecadeStart(y, yearRange) + yearRange, 0, 1))
  {
    NextMonthBoundary(u, y, m, yearRange, l);
    NextYearBoundary(u, y, m, yearRange, l);
    if yearRange > 0 {
      NextRangeBoundary(u, y, m, yearRange, l);
    }
  }

  /** The day view of `NextPageBoundary`. */
  lemma NextMonthBoundary(u: Utils, y: int, m: int, yearRange: int, l: int)
    requires !u.useUtc && y >= 100 && 0 <= m < 12 && TimeOfDay(u, l) == 0
    ensures BeforeNextPage(u, l, DayView, LocalDate(u, y, m, 1), yearRange) <==> DayIndex(u, l) < MakeDay(y, m + 1, 1)
  {
    var page := LocalDate(u, y, m, 1);
    PageStart(u, y, m);
    assert SetMonth(u, page, GetMonth(u, page) + 1) == ModeMidnight(u, MakeDay(y, m + 1, 1));
    MidnightBefore(u, l, MakeDay(y, m + 1, 1));
  }

  /** The month view of `NextPageBoundary`. */
  lemma NextYearBoundary(u: Utils, y: int, m: int, yearRange: int, l: int)
    requires !u.useUtc && y >= 100 && 0 <= m < 12 && TimeOfDay(u, l) == 0
    ensures BeforeNextPage(u, l, MonthView, LocalDate(u, y, m, 1), yearRange) <==> DayIndex(u, l) < MakeDay(y + 1, 0, 1)
  {
    PageStart(u, y, m);
    assert PageYear(u, LocalDate(u, y, m, 1)) == y;
    LocalDateInLocalMode(u, y, 11, 31);
    NewYear(y);
    MidnightBefore(u, l, MakeDay(y + 1, 0, 1));
  }

  /** The year view of `NextPageBoundary`. */
  lemma NextRangeBoundary(u: Utils, y: int, m: int, yearRange: int, l: int)
    requires !u.useUtc && y >= 100 && 0 <= m < 12 && TimeOfDay(u, l) == 0 && yearRange > 0
    ensures BeforeNextPage(u, l, YearView, LocalDate(u, y, m, 1), yearRange) <==> DayIndex(u, l) < MakeDay(DecadeStart(y, yearRange) + yearRange, 0, 1)
  {
    PageStart(u, y, m);
    var next := DecadeStart(y, yearRange) + yearRange;
    assert PageDecadeEnd(u, LocalDate(u, y, m, 1), yearRange) + 1 == next;
    LocalDateInLocalMode(u, next, 0, 1);
    MidnightBefore(u, l, MakeDay(next, 0, 1));
  }

  /**
   * In local mode, on a page that starts at midnight on the 1st of month
   * `m` of year `y` (from year 100 on), an earliest enabled midnight `e` is
   * above the previous-page threshold exactly when its day is on or after
   * the first day of the page: its month, its year, or the first year of
   * its year range (from year 101 on, where the year before stays clear of
   * the two-digit rule).
   */
  lemma PreviousPageBoundary(u: Utils, y: int, m: int, yearRange: int, e: int)
    requires !u.useUtc && y >= 100 && 0 <= m < 12 && TimeOfDay(u, e) == 0
    ensures AfterPreviousPage(u, e, DayView, LocalDate(u, y, m, 1), yearRange) <==> DayIndex(u, e) >= MakeDay(y, m, 1)
    ensures AfterPreviousPage(u, e, MonthView, LocalDate(u, y, m, 1), yearRange) <==> DayIndex(u, e) >= MakeDay(y, 0, 1)
    ensures yearRange > 0 && DecadeStart(y, yearRange) > 100 ==>
      (AfterPreviousPage(u, e, YearView, LocalDate(u, y, m, 1), yearRange) <==> DayIndex(u, e) >= MakeDay(DecadeStart(y, yearRange), 0, 1))
  {
    PreviousMonthBoundary(u, y, m, yearRange, e);
    PreviousYearBoundary(u, y, m, yearRange, e);
    if yearRange > 0 && DecadeStart(y, yearRange) > 100 {
      PreviousRangeBoundary(u, y, m, yearRange, e);
    }
  }

  /** The day view of `PreviousPageBoundary`. */
  lemma PreviousMonthBoundary(u: Utils, y: int, m: int, yearRange: int, e: int)
    requires !u.useUtc && y >= 100 && 0 <= m < 12 && TimeOfDay(u, e) == 0
    ensures AfterPreviousPage(u, e, DayView, LocalDate(u, y, m, 1), yearRange) <==> DayIndex(u, e) >= MakeDay(y, m, 1)
  {
    var page := LocalDate(u, y, m, 1);
    PageStart(u, y, m);
    assert SetDate(u, page, 0) == ModeMidnight(u, MakeDay(y, m, 1) - 1);
    MidnightBefore(u, e, MakeDay(y, m, 1));
  }

  /** The month view of `PreviousPageBoundary`. */
  lemma PreviousYearBoundary(u: Utils, y: int, m: int, yearRange: int, e: int)
    requires !u.useUtc && y >= 100 && 0 <= m < 12 && TimeOfDay(u, e) == 0
    ensures AfterPreviousPage(u, e, MonthView, LocalDate(u, y, m, 1), yearRange) <==> DayIndex(u, e) >= MakeDay(y, 0, 1)
  {
    PageStart(u, y, m);
    assert PageYear(u, LocalDate(u, y, m, 1)) == y;
    LocalDateInLocalMode(u, y, 0, 1);
    MidnightBefore(u, e, MakeDay(y, 0, 1));
  }

  /** The year view of `PreviousPageBoundary`. */
  lemma PreviousRangeBoundary(u: Utils, y: int, m: int, yearRange: int, e: int)
    requires !u.useUtc && y >= 100 && 0 <= m < 12 && TimeOfDay(u, e) == 0 && yearRange > 0 && DecadeStart(y, yearRange) > 100
    ensures AfterPreviousPage(u, e, YearView, LocalDate(u, y, m, 1), yearRange) <==> DayIndex(u, e) >= MakeDay(DecadeStart(y, yearRange), 0, 1)
  {
    PageStart(u, y, m);
    var first := DecadeStart(y, yearRange);
    assert PageYear(u, LocalDate(u, y, m, 1)) == y;
    LocalDateInLocalMode(u, first - 1, 11, 31);
    NewYear(first - 1);
    MidnightBefore(u, e, MakeDay(first, 0, 1));
  }

  /**
   * `isNextDisabled`. `None` stands for a search that runs out of fuel
   * (the source recurses until the stack overflows).
   */
  function IsNextDisabled(u: Utils, cfg: Option<RuleBag>, view: View, page: int, yearRange: int, fuel: nat): (r: Option<bool>)
    ensures !HasFrom(cfg) ==> r == Some(false)
    ensures r.None? <==> HasFrom(cfg) && LatestPossibleDate(u, cfg, fuel) == Searched(OutOfFuel)
    ensures r == Some(true) <==> FoundBelow(LatestPossibleDate(u, cfg, fuel), NextThreshold(u, view, page, yearRange))
  {
    if !DisabledConfigHas(u, cfg).from then Some(false)
    else
      var latest := LatestPossibleDate(u, cfg, fuel).result;
      if latest.OutOfFuel? then None
      else Some(BeforeNextPage(u, latest.date, view, page, yearRange))
  }

  /** `isPreviousDisabled`, with `None` for a search out of fuel. */
  function IsPreviousDisabled(u: Utils, cfg: Option<RuleBag>, view: View, page: int, yearRange: int, fuel: nat): (r: Option<bool>)
    ensures !HasTo(cfg) ==> r == Some(false)
    ensures r.None? <==> HasTo(cfg) && EarliestPossibleDate(u, cfg, fuel) == Searched(OutOfFuel)
    ensures r == Some(true) <==> FoundAbove(EarliestPossibleDate(u, cfg, fuel), PreviousThreshold(u, view, page, yearRange))
  {
    if !DisabledConfigHas(u, cfg).to then Some(false)
    else
      var earliest := EarliestPossibleDate(u, cfg, fuel).result;
      if earliest.OutOfFuel? then None
      else Some(AfterPreviousPage(u, earliest.date, view, page, yearRange))
  }

  // ---------------------------------------------------------------------
  // What the buttons mean for the calendar's days

  /**
   * Every mode midnight after a found latest date is disabled, except
   * possibly the midnight of `from`'s own day (it precedes `from` when
   * `from` has a time of day, and the search steps over it).
   */
  lemma LatestBelow(u: Utils, bag: RuleBag, fuel: nat, x: int)
    requires bag.from.Set? && bag.from.value.At?
    requires GetLatestPossibleDate(u, bag, bag.from.value.ms, fuel).Found?
    requires GetLatestPossibleDate(u, bag, bag.from.value.ms, fuel).date < x
    ensures forall z :: ModeMidnight(u, z) >= x && z != DayIndex(u, bag.from.value.ms) ==> RulesMatch(u, bag, ModeMidnight(u, z))
  {
    var f := bag.from.value.ms;
    var l := GetLatestPossibleDate(u, bag, f, fuel).date;
    assert Fires(FromRule, u, bag, f);
    LatestIsFirst(u, bag, f, fuel);
    ModeTimeOf(u, l);
    ModeTimeOf(u, f);
    forall z | ModeMidnight(u, z) >= x && z != DayIndex(u, f) ensures RulesMatch(u, bag, ModeMidnight(u, z)) {
      if z > DayIndex(u, f) {
        assert Fires(FromRule, u, bag, ModeMidnight(u, z));
      }
    }
  }

  /** Every mode midnight up to an instant before a found earliest date is disabled. */
  lemma EarliestAbove(u: Utils, bag: RuleBag, fuel: nat, x: int)
    requires bag.to.Set? && bag.to.value.At?
    requires GetEarliestPossibleDate(u, bag, bag.to.value.ms, fuel).Found?
    requires GetEarliestPossibleDate(u, bag, bag.to.value.ms, fuel).date > x
    ensures forall z :: ModeMidnight(u, z) <= x ==> RulesMatch(u, bag, ModeMidnight(u, z))
  {
    var t := bag.to.value.ms;
    var e := GetEarliestPossibleDate(u, bag, t, fuel).date;
    assert Fires(ToRule, u, bag, t);
    EarliestIsFirst(u, bag, t, fuel);
    ModeTimeOf(u, e);
    ModeTimeOf(u, t);
    forall z | ModeMidnight(u, z) <= x ensures RulesMatch(u, bag, ModeMidnight(u, z)) {
      if z <= DayIndex(u, t) {
        assert Fires(ToRule, u, bag, ModeMidnight(u, z));
      }
    }
  }

  /**
   * The next button is disabled exactly when no day from the next page on
   * can be picked: when it is disabled every later mode midnight is
   * disabled (but for `from`'s own day, see `LatestBelow`), and when it is
   * enabled under a `from` rule some later mode midnight is enabled.
   */
  lemma NextDisabledMeaning(u: Utils, cfg: Option<RuleBag>, view: View, page: int, yearRange: int, fuel: nat)
    ensures IsNextDisabled(u, cfg, view, page, yearRange, fuel) == Some(true) ==>
      var x := NextThreshold(u, view, page, yearRange).value;
      forall z :: ModeMidnight(u, z) >= x && z != DayIndex(u, cfg.value.from.value.ms) ==> RulesMatch(u, cfg.value, ModeMidnight(u, z))
    ensures IsNextDisabled(u, cfg, view, page, yearRange, fuel) == Some(false) && HasFrom(cfg) ==>
      NextThreshold(u, view, page, yearRange).None?
      || exists z :: ModeMidnight(u, z) >= NextThreshold(u, view, page, yearRange).value && !RulesMatch(u, cfg.value, ModeMidnight(u, z))
  {
    var r := IsNextDisabled(u, cfg, view, page, yearRange, fuel);
    var x := NextThreshold(u, view, page, yearRange);
    if r == Some(true) {
      LatestBelow(u, cfg.value, fuel, x.value);
    } else if r == Some(false) && HasFrom(cfg) && x.Some? {
      var l := LatestPossibleDate(u, cfg, fuel).result.date;
      ModeTimeOf(u, l);
      assert ModeMidnight(u, DayIndex(u, l)) == l;
    }
  }

  /**
   * The previous button is disabled exactly when no day up to the end of
   * the previous page can be picked.
   */
  lemma PreviousDisabledMeaning(u: Utils, cfg: Option<RuleBag>, view: View, page: int, yearRange: int, fuel: nat)
    ensures IsPreviousDisabled(u, cfg, view, page, yearRange, fuel) == Some(true) ==>
      var x := PreviousThreshold(u, view, page, yearRange).value;
      forall z :: ModeMidnight(u, z) <= x ==> RulesMatch(u, cfg.value, ModeMidnight(u, z))
    ensures IsPreviousDisabled(u, cfg, view, page, yearRange, fuel) == Some(false) && HasTo(cfg) ==>
      PreviousThreshold(u, view, page, yearRange).None?
      || exists z :: ModeMidnight(u, z) <= PreviousThreshold(u, view, page, yearRange).value && !RulesMatch(u, cfg.value, ModeMidnight(u, z))
  {
    var r := IsPreviousDisabled(u, cfg, view, page, yearRange, fuel);
    var x := PreviousThreshold(u, view, page, yearRange);
    if r == Some(true) {
      EarliestAbove(u, cfg.value, fuel, x.value);
    } else if r == Some(false) && HasTo(cfg) && x.Some? {
      var e := EarliestPossibleDate(u, cfg, fuel).result.date;
      ModeTimeOf(u, e);
      assert ModeMidnight(u, DayIndex(u, e)) == e;
    }
  }

  // ---------------------------------------------------------------------
  // Calendar-facing wrappers

  /** `isDisabledDate(date)`: never, without the option. */
  function IsDisabledDate(u: Utils, cfg: Option<RuleBag>, t: int): (r: bool)
    ensures r <==> cfg.Some? && exists rule :: Fires(rule, u, cfg.value, t)
  {
    cfg.Some? && RulesMatch(u, cfg.value, t)
  }

  /** `isDisabledMonth(date)`, with the corrected month rule. */
  function IsDisabledMonth(u: Utils, cfg: Option<RuleBag>, t: int): (r: bool)
    ensures r <==> cfg.Some? && AllDaysDisabled(u, cfg.value, GetFullYear(u, t), GetMonth(u, t))
  {
    cfg.Some? && IsMonthDisabled(u, cfg.value, t)
  }

  /** `isDisabledYear(date)`, with the corrected year rule. */
  function IsDisabledYear(u: Utils, cfg: Option<RuleBag>, t: int): (r: bool)
    ensures r <==> cfg.Some? && forall m :: 0 <= m < 12 ==> AllDaysDisabled(u, cfg.value, GetFullYear(u, t), m)
  {
    cfg.Some? && IsYearDisabled(u, cfg.value, t)
  }
}
