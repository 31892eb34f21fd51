/**
 * The disabled-dates evaluator: seven day rules read from a rule bag, the
 * month and year rules built on them, and the searches for the earliest
 * and latest enabled dates.
 *
 * Two month/year fallbacks and the search step are given twice: as the
 * source writes them (`...AsWritten`) and corrected; the corrected ones
 * are what the rest of the model uses.
 */
module DisabledDate {
  import opened Wrappers
  import opened Calendar
  import opened JsText
  import opened DateUtils
  import opened CellUtils

  // ---------------------------------------------------------------------
  // config

  datatype Has = Has(
    customPredictor: bool,
    daysOfMonth: bool,
    daysOfWeek: bool,
    from: bool,
    ranges: bool,
    specificDates: bool,
    to: bool)

  datatype Config = Config(to: DayMonthYear, from: DayMonthYear, has: Has)

  /** `config`: which rules are in force, and the mode fields of `to` and `from`. */
  function GetConfig(u: Utils, bag: RuleBag): (c: Config)
    ensures c.has.to <==> bag.to.Set? && bag.to.value.At?
    ensures c.has.from <==> bag.from.Set? && bag.from.value.At?
    ensures c.has.ranges <==> bag.ranges.Set?
    ensures c.has.specificDates <==> bag.dates.Set?
    ensures c.has.daysOfWeek <==> bag.days.Set?
    ensures c.has.daysOfMonth <==> bag.daysOfMonth.Set?
    ensures c.has.customPredictor <==> bag.customPredictor.Some?
    ensures c.has.to ==> c.to == DayMonthYear(Some(GetDate(u, bag.to.value.ms)), Some(GetMonth(u, bag.to.value.ms)),
                                              Some(GetFullYear(u, bag.to.value.ms)))
    ensures c.has.from ==> c.from == DayMonthYear(Some(GetDate(u, bag.from.value.ms)), Some(GetMonth(u, bag.from.value.ms)),
                                                  Some(GetFullYear(u, bag.from.value.ms)))
    ensures !c.has.to ==> c.to == DayMonthYear(None, None, None)
    ensures !c.has.from ==> c.from == DayMonthYear(None, None, None)
  {
    var obj, utils := Some(bag), Some(u);
    DefinedFields(bag);
    ArrayFields(bag);
    DateFields(utils, bag);
    var has := Has(
      IsDefined(obj, CustomPredictorKey),
      HasArray(obj, DaysOfMonthKey),
      HasArray(obj, DaysKey),
      HasDate(utils, obj, FromKey),
      HasArray(obj, RangesKey),
      HasArray(obj, DatesKey),
      HasDate(utils, obj, ToKey));
    Config(GetDayMonthYear(utils, obj, ToKey), GetDayMonthYear(utils, obj, FromKey), has)
  }

  // ---------------------------------------------------------------------
  // The seven day rules

  /** `date <= d` for a Date `d`: false when `d` is an Invalid Date. */
  predicate OnOrBefore(t: int, d: DateObj) {
    d.At? && t <= d.ms
  }

  predicate OnOrAfter(t: int, d: DateObj) {
    d.At? && t >= d.ms
  }

  function DisabledViaTo(u: Utils, bag: RuleBag, t: int): (r: bool)
    ensures r <==> bag.to.Set? && bag.to.value.At? && t <= bag.to.value.ms
  {
    GetConfig(u, bag).has.to && t <= bag.to.value.ms
  }

  function DisabledViaFrom(u: Utils, bag: RuleBag, t: int): (r: bool)
    ensures r <==> bag.from.Set? && bag.from.value.At? && t >= bag.from.value.ms
  {
    GetConfig(u, bag).has.from && t >= bag.from.value.ms
  }

  /** A range holds `t` when both ends are set, valid, and around `t` inclusively. */
  predicate InRange(rg: Range, t: int) {
    rg.from.Some? && rg.to.Some? && rg.from.value.At? && rg.to.value.At?
    && rg.from.value.ms <= t <= rg.to.value.ms
  }

  /** `ranges.some(...)`, scanning from the first range. */
  function SomeRangeHolds(ranges: seq<Range>, t: int): (r: bool)
    ensures r <==> exists i :: 0 <= i < |ranges| && InRange(ranges[i], t)
  {
    if |ranges| == 0 then false
    else
      var thisRange := ranges[0];
      var hasFrom := thisRange.from.Some?;
      var hasTo := thisRange.to.Some?;
      var rest := SomeRangeHolds(ranges[1..], t);
      assert rest <==> exists i :: 1 <= i < |ranges| && InRange(ranges[i], t) by {
        if rest {
          var i :| 0 <= i < |ranges[1..]| && InRange(ranges[1..][i], t);
          assert ranges[i + 1] == ranges[1..][i];
        }
        forall i | 1 <= i < |ranges| && InRange(ranges[i], t) ensures rest {
          assert ranges[1..][i - 1] == ranges[i];
        }
      }
      (hasFrom && hasTo && OnOrBefore(t, thisRange.to.value) && OnOrAfter(t, thisRange.from.value)) || rest
  }

  function DisabledViaRange(u: Utils, bag: RuleBag, t: int): (r: bool)
    ensures r <==> bag.ranges.Set? && exists i :: 0 <= i < |bag.ranges.value| && InRange(bag.ranges.value[i], t)
  {
    if !GetConfig(u, bag).has.ranges then false
    else SomeRangeHolds(bag.ranges.value, t)
  }

  function DisabledViaCustomPredictor(u: Utils, bag: RuleBag, t: int): (r: bool)
    ensures r <==> bag.customPredictor.Some? && bag.customPredictor.value(t)
  {
    GetConfig(u, bag).has.customPredictor && bag.customPredictor.value(t)
  }

  /** A listed date on the same mode day as `t`. */
  predicate SameDay(u: Utils, d: Option<DateObj>, t: int) {
    d.Some? && d.value.At? && DayIndex(u, d.value.ms) == DayIndex(u, t)
  }

  /** `compareDates(date, d)` for a valid `date`, read as a day comparison. */
  lemma CompareDatesSameDay(u: Utils, t: int, d: Option<DateObj>)
    ensures CompareDates(u, Some(At(t)), d) <==> SameDay(u, d, t)
  {
    if d.Some? && d.value.At? {
      ResetSameDay(u, t, d.value.ms);
    }
  }

  /** `dates.some(d => compareDates(date, d))`. */
  function SomeDateMatches(u: Utils, dates: seq<Option<DateObj>>, t: int): (r: bool)
    ensures r <==> exists i :: 0 <= i < |dates| && SameDay(u, dates[i], t)
  {
    if |dates| == 0 then false
    else
      var rest := SomeDateMatches(u, dates[1..], t);
      assert rest <==> exists i :: 1 <= i < |dates| && SameDay(u, dates[i], t) by {
        if rest {
          var i :| 0 <= i < |dates[1..]| && SameDay(u, dates[1..][i], t);
          assert dates[i + 1] == dates[1..][i];
        }
        forall i | 1 <= i < |dates| && SameDay(u, dates[i], t) ensures rest {
          assert dates[1..][i - 1] == dates[i];
        }
      }
      CompareDatesSameDay(u, t, dates[0]);
      CompareDates(u, Some(At(t)), dates[0]) || rest
  }

  function DisabledViaSpecificDate(u: Utils, bag: RuleBag, t: int): (r: bool)
    ensures r <==> bag.dates.Set? && exists i :: 0 <= i < |bag.dates.value| && SameDay(u, bag.dates.value[i], t)
  {
    if !GetConfig(u, bag).has.specificDates then false
    else SomeDateMatches(u, bag.dates.value, t)
  }

  function DisabledViaDaysOfWeek(u: Utils, bag: RuleBag, t: int): (r: bool)
    ensures r <==> bag.days.Set? && GetDay(u, t) in bag.days.value
  {
    if !GetConfig(u, bag).has.daysOfWeek then false
    else FindIndex(bag.days.value, GetDay(u, t)) != -1
  }

  function DisabledViaDaysOfMonth(u: Utils, bag: RuleBag, t: int): (r: bool)
    ensures r <==> bag.daysOfMonth.Set? && GetDate(u, t) in bag.daysOfMonth.value
  {
    if !GetConfig(u, bag).has.daysOfMonth then false
    else FindIndex(bag.daysOfMonth.value, GetDate(u, t)) != -1
  }

  datatype Rule = ToRule | FromRule | RangeRule | SpecificDateRule | DayOfWeekRule | DayOfMonthRule | PredictorRule

  /** Whether one rule of the bag matches instant `t`. */
  predicate Fires(rule: Rule, u: Utils, bag: RuleBag, t: int) {
    match rule
    case ToRule => DisabledViaTo(u, bag, t)
    case FromRule => DisabledViaFrom(u, bag, t)
    case RangeRule => DisabledViaRange(u, bag, t)
    case SpecificDateRule => DisabledViaSpecificDate(u, bag, t)
    case DayOfWeekRule => DisabledViaDaysOfWeek(u, bag, t)
    case DayOfMonthRule => DisabledViaDaysOfMonth(u, bag, t)
    case PredictorRule => DisabledViaCustomPredictor(u, bag, t)
  }

  /** A bag with every property undefined. */
  predicate IsEmptyBag(bag: RuleBag) {
    bag.to.Unset? && bag.from.Unset? && bag.ranges.Unset? && bag.customPredictor.None?
    && bag.dates.Unset? && bag.days.Unset? && bag.daysOfMonth.Unset?
  }

  /**
   * `isDateDisabled(date)` (and, over the highlighted bag, the rule part of
   * `isDateHighlighted`): the seven checks in the source's order.
   */
  function RulesMatch(u: Utils, bag: RuleBag, t: int): (r: bool)
    ensures r <==> exists rule :: Fires(rule, u, bag, t)
    ensures IsEmptyBag(bag) ==> !r
  {
    FiresExactly(u, bag, t);
    DisabledViaTo(u, bag, t)
    || DisabledViaFrom(u, bag, t)
    || DisabledViaRange(u, bag, t)
    || DisabledViaSpecificDate(u, bag, t)
    || DisabledViaDaysOfWeek(u, bag, t)
    || DisabledViaDaysOfMonth(u, bag, t)
    || DisabledViaCustomPredictor(u, bag, t)
  }

  /** Some rule fires exactly when one of the seven checks holds. */
  lemma FiresExactly(u: Utils, bag: RuleBag, t: int)
    ensures (exists rule :: Fires(rule, u, bag, t)) <==>
      DisabledViaTo(u, bag, t)
      || DisabledViaFrom(u, bag, t)
      || DisabledViaRange(u, bag, t)
      || DisabledViaSpecificDate(u, bag, t)
      || DisabledViaDaysOfWeek(u, bag, t)
      || DisabledViaDaysOfMonth(u, bag, t)
      || DisabledViaCustomPredictor(u, bag, t)
  {
    if DisabledViaTo(u, bag, t) {
      assert Fires(ToRule, u, bag, t);
    } else if DisabledViaFrom(u, bag, t) {
      assert Fires(FromRule, u, bag, t);
    } else if DisabledViaRange(u, bag, t) {
      assert Fires(RangeRule, u, bag, t);
    } else if DisabledViaSpecificDate(u, bag, t) {
      assert Fires(SpecificDateRule, u, bag, t);
    } else if DisabledViaDaysOfWeek(u, bag, t) {
      assert Fires(DayOfWeekRule, u, bag, t);
    } else if DisabledViaDaysOfMonth(u, bag, t) {
      assert Fires(DayOfMonthRule, u, bag, t);
    } else if DisabledViaCustomPredictor(u, bag, t) {
      assert Fires(PredictorRule, u, bag, t);
    }
  }

  /** The bag that lists a single date. */
  function OneDateBag(d: int): RuleBag {
    EmptyBag.(dates := Set([Some(At(d))]))
  }

  /** A bag listing one date disables exactly that date's mode day. */
  lemma OneDateBagMatches(u: Utils, d: int, t: int)
    ensures RulesMatch(u, OneDateBag(d), t) <==> DayIndex(u, t) == DayIndex(u, d)
  {
    var bag := OneDateBag(d);
    assert bag.dates.value[0] == Some(At(d));
    if RulesMatch(u, bag, t) {
      var rule :| Fires(rule, u, bag, t);
      assert rule == SpecificDateRule;
    }
  }

  // ---------------------------------------------------------------------
  // Month and year boundary rules

  /** `isMonthDisabledVia(date).to()`. */
  function MonthDisabledViaTo(u: Utils, bag: RuleBag, t: int): (r: bool)
    ensures r <==> bag.to.Set? && bag.to.value.At? && MonthKey(Fields(u, t)) < MonthKey(Fields(u, bag.to.value.ms))
  {
    var c := GetConfig(u, bag);
    var month, year := GetMonth(u, t), GetFullYear(u, t);
    var isYearInPast := c.has.to && year < c.to.year.value;
    if isYearInPast then true
    else c.has.to && month < c.to.month.value && year <= c.to.year.value
  }

  /** `isMonthDisabledVia(date).from()`. */
  function MonthDisabledViaFrom(u: Utils, bag: RuleBag, t: int): (r: bool)
    ensures r <==> bag.from.Set? && bag.from.value.At? && MonthKey(Fields(u, t)) > MonthKey(Fields(u, bag.from.value.ms))
  {
    var c := GetConfig(u, bag);
    var month, year := GetMonth(u, t), GetFullYear(u, t);
    var isYearInFuture := c.has.from && year > c.from.year.value;
    if isYearInFuture then true
    else c.has.from && month > c.from.month.value && year >= c.from.year.value
  }

  function YearDisabledViaTo(u: Utils, bag: RuleBag, t: int): (r: bool)
    ensures r <==> bag.to.Set? && bag.to.value.At? && GetFullYear(u, t) < GetFullYear(u, bag.to.value.ms)
  {
    var c := GetConfig(u, bag);
    c.has.to && GetFullYear(u, t) < c.to.year.value
  }

  function YearDisabledViaFrom(u: Utils, bag: RuleBag, t: int): (r: bool)
    ensures r <==> bag.from.Set? && bag.from.value.At? && GetFullYear(u, t) > GetFullYear(u, bag.from.value.ms)
  {
    var c := GetConfig(u, bag);
    c.has.from && GetFullYear(u, t) > c.from.year.value
  }

  /** Every instant of a month the boundary rules disable is disabled by the day rules. */
  lemma MonthBoundaryDisablesDays(u: Utils, bag: RuleBag, t: int, s: int)
    requires MonthDisabledViaTo(u, bag, t) || MonthDisabledViaFrom(u, bag, t)
    requires MonthKey(Fields(u, s)) == MonthKey(Fields(u, t))
    ensures RulesMatch(u, bag, s)
  {
    if MonthDisabledViaTo(u, bag, t) {
      InstantOrderedByMonth(u, s, bag.to.value.ms);
      assert Fires(ToRule, u, bag, s);
    } else {
      InstantOrderedByMonth(u, bag.from.value.ms, s);
      assert Fires(FromRule, u, bag, s);
    }
  }

  /** The year boundary rules disable every month of the year through the month boundary rules. */
  lemma YearBoundaryDisablesMonths(u: Utils, bag: RuleBag, t: int, s: int)
    requires YearDisabledViaTo(u, bag, t) || YearDisabledViaFrom(u, bag, t)
    requires GetFullYear(u, s) == GetFullYear(u, t)
    ensures MonthDisabledViaTo(u, bag, s) || MonthDisabledViaFrom(u, bag, s)
  {
  }

  // ---------------------------------------------------------------------
  // Month and year rules, corrected

  /** Every day of month `m` of year `y`, at its mode midnight, is disabled. */
  predicate AllDaysDisabled(u: Utils, bag: RuleBag, y: int, m: int)
    requires 0 <= m < 12
  {
    forall k :: 1 <= k <= MonthLength(y, m) ==> RulesMatch(u, bag, ModeDate(u, y, m, k))
  }

  lemma MonthBoundaryDisablesMonth(u: Utils, bag: RuleBag, t: int)
    requires MonthDisabledViaTo(u, bag, t) || MonthDisabledViaFrom(u, bag, t)
    ensures AllDaysDisabled(u, bag, GetFullYear(u, t), GetMonth(u, t))
  {
    var y, m := GetFullYear(u, t), GetMonth(u, t);
    forall k | 1 <= k <= MonthLength(y, m) ensures RulesMatch(u, bag, ModeDate(u, y, m, k)) {
      ModeDateFields(u, y, m, k);
      MonthBoundaryDisablesDays(u, bag, t, ModeDate(u, y, m, k));
    }
  }

  /**
   * `isMonthDisabled(date)` as its comment intends: the boundary rules, or
   * else every day of the month disabled. The boundary rules only ever
   * short-cut that answer.
   */
  function IsMonthDisabled(u: Utils, bag: RuleBag, t: int): (r: bool)
    ensures r <==> AllDaysDisabled(u, bag, GetFullYear(u, t), GetMonth(u, t))
  {
    if MonthDisabledViaTo(u, bag, t) || MonthDisabledViaFrom(u, bag, t) then
      MonthBoundaryDisablesMonth(u, bag, t);
      true
    else
      var y, m := GetFullYear(u, t), GetMonth(u, t);
      forall k :: 1 <= k <= GetDaysInMonth(u, t) ==> RulesMatch(u, bag, ModeDate(u, y, m, k))
  }

  lemma YearBoundaryDisablesYear(u: Utils, bag: RuleBag, t: int)
    requires YearDisabledViaTo(u, bag, t) || YearDisabledViaFrom(u, bag, t)
    ensures forall m :: 0 <= m < 12 ==> AllDaysDisabled(u, bag, GetFullYear(u, t), m)
  {
    var y := GetFullYear(u, t);
    forall m | 0 <= m < 12 ensures AllDaysDisabled(u, bag, y, m) {
      forall k | 1 <= k <= MonthLength(y, m) ensures RulesMatch(u, bag, ModeDate(u, y, m, k)) {
        var s := ModeDate(u, y, m, k);
        ModeDateFields(u, y, m, k);
        YearBoundaryDisablesMonths(u, bag, t, s);
        MonthBoundaryDisablesDays(u, bag, s, s);
      }
    }
  }

  /** The month of `ModeDate(y, m, 1)` is month `m` of year `y`. */
  lemma MonthsOfYear(u: Utils, bag: RuleBag, y: int)
    ensures (forall m :: 0 <= m < 12 ==> IsMonthDisabled(u, bag, ModeDate(u, y, m, 1)))
            <==> (forall m :: 0 <= m < 12 ==> AllDaysDisabled(u, bag, y, m))
  {
    forall m | 0 <= m < 12 ensures IsMonthDisabled(u, bag, ModeDate(u, y, m, 1)) <==> AllDaysDisabled(u, bag, y, m) {
      ModeDateFields(u, y, m, 1);
    }
  }

  /**
   * `isYearDisabled(date)` as its comment intends: the boundary rules, or
   * else all twelve months of the date's year disabled.
   */
  function IsYearDisabled(u: Utils, bag: RuleBag, t: int): (r: bool)
    ensures r <==> forall m :: 0 <= m < 12 ==> AllDaysDisabled(u, bag, GetFullYear(u, t), m)
  {
    if YearDisabledViaTo(u, bag, t) || YearDisabledViaFrom(u, bag, t) then
      YearBoundaryDisablesYear(u, bag, t);
      true
    else
      MonthsOfYear(u, bag, GetFullYear(u, t));
      forall m :: 0 <= m < 12 ==> IsMonthDisabled(u, bag, ModeDate(u, GetFullYear(u, t), m, 1))
  }

  // ---------------------------------------------------------------------
  // Month and year rules, as written

  /** `getNewDateObject(new Date(year, month, k))`: local midnight of the date, reset in the active mode. */
  function DayOfMonthAsWritten(u: Utils, y: int, m: int, k: int): int {
    ResetDateTime(u, LocalDate(u, y, m, k))
  }

  /** `isMonthDisabled(date)` as written: the fallback is `every(d => !isDateDisabled(d))`. */
  function IsMonthDisabledAsWritten(u: Utils, bag: RuleBag, t: int): bool {
    if MonthDisabledViaTo(u, bag, t) || MonthDisabledViaFrom(u, bag, t) then true
    else
      var y, m := GetFullYear(u, t), GetMonth(u, t);
      forall k :: 1 <= k <= GetDaysInMonth(u, t) ==> !RulesMatch(u, bag, DayOfMonthAsWritten(u, y, m, k))
  }

  /** `isYearDisabled(date)` as written: days 1..12 of the date's own month, each through the month rule as written. */
  function IsYearDisabledAsWritten(u: Utils, bag: RuleBag, t: int): bool {
    if YearDisabledViaTo(u, bag, t) || YearDisabledViaFrom(u, bag, t) then true
    else
      var y, m := GetFullYear(u, t), GetMonth(u, t);
      forall k :: 1 <= k <= 12 ==> !IsMonthDisabledAsWritten(u, bag, DayOfMonthAsWritten(u, y, m, k))
  }

  /**
   * With no rules at all, the month rule as written disables every month,
   * while nothing is disabled day by day.
   */
  lemma MonthFallbackInverted(u: Utils, bag: RuleBag, t: int)
    requires IsEmptyBag(bag)
    ensures IsMonthDisabledAsWritten(u, bag, t)
    ensures !IsMonthDisabled(u, bag, t)
    ensures !RulesMatch(u, bag, t)
  {
    var y, m := GetFullYear(u, t), GetMonth(u, t);
    assert !RulesMatch(u, bag, ModeDate(u, y, m, 1));
  }

  /** In local mode, for a year of at least 100, `new Date(y, m, k)` is already a mode midnight. */
  lemma DayOfMonthInLocalMode(u: Utils, y: int, m: int, k: int)
    requires !u.useUtc && ValidCivil(Civil(y, m, k)) && !(0 <= y <= 99)
    ensures DayOfMonthAsWritten(u, y, m, k) == ModeDate(u, y, m, k)
    ensures Fields(u, DayOfMonthAsWritten(u, y, m, k)) == Civil(y, m, k)
  {
    LocalDateInLocalMode(u, y, m, k);
    ModeDateFields(u, y, m, k);
    ModeTimeOf(u, ModeDate(u, y, m, k));
  }

  /**
   * In UTC mode with the local zone ahead of UTC, `new Date(y, m, k)`
   * falls in UTC day `k - 1`, so the month and year rules as written
   * examine the previous day of each day they mean to examine.
   */
  lemma DayOfMonthInUtcMode(u: Utils, y: int, m: int, k: int)
    requires u.useUtc && 0 < u.localOffset < DayMs && !(0 <= y <= 99)
    ensures DayOfMonthAsWritten(u, y, m, k) == ModeDate(u, y, m, k - 1)
  {
    UtcDayOfLocalMidnight(u, MakeDay(y, m, k));
    MakeDayShift(y, m, k - 1, 1);
  }

  /** In years 0 to 99, the days the month and year rules as written build lie in 1900 to 1999. */
  lemma DayOfMonthTwoDigitYear(u: Utils, y: int, m: int, k: int)
    requires !u.useUtc && 0 <= y <= 99 && ValidCivil(Civil(1900 + y, m, k))
    ensures Fields(u, DayOfMonthAsWritten(u, y, m, k)) == Civil(1900 + y, m, k)
  {
    LocalDateInLocalMode(u, 1900 + y, m, k);
    ModeDateFields(u, 1900 + y, m, k);
  }

  /** For instance, the first day the rules as written examine for January 2021 is 31 December 2020. */
  lemma FirstOfJanuaryInUtcMode(u: Utils)
    requires u.useUtc && 0 < u.localOffset < DayMs
    ensures Fields(u, DayOfMonthAsWritten(u, 2021, 0, 1)) == Civil(2020, 11, 31)
  {
    DayOfMonthInUtcMode(u, 2021, 0, 1);
    MakeDayShift(2020, 11, 31, 1);
    NewYear(2020);
    ModeDateFields(u, 2020, 11, 31);
  }

  /**
   * One disabled date, 2021-01-05, is enough for the year rule as written
   * to disable all of 2021 (asked about 2021-01-01), while the corrected
   * rule keeps it selectable.
   */
  lemma YearFallbackCounterexample(u: Utils)
    requires !u.useUtc
    ensures IsYearDisabledAsWritten(u, OneDateBag(ModeDate(u, 2021, 0, 5)), ModeDate(u, 2021, 0, 1))
    ensures !IsYearDisabled(u, OneDateBag(ModeDate(u, 2021, 0, 5)), ModeDate(u, 2021, 0, 1))
  {
    var d := ModeDate(u, 2021, 0, 5);
    var bag := OneDateBag(d);
    var t := ModeDate(u, 2021, 0, 1);
    ModeDateFields(u, 2021, 0, 1);
    ModeDateFields(u, 2021, 0, 5);
    forall k | 1 <= k <= 12 ensures !IsMonthDisabledAsWritten(u, bag, DayOfMonthAsWritten(u, 2021, 0, k)) {
      JanuaryDayAsWritten(u, k);
    }
    OneDateBagMatches(u, d, t);
    assert MonthLength(2021, 0) == 31;
    YearEnabledDay(u, bag, t, 0, 1);
  }

  /** The corrected year rule fails as soon as one day of the year is enabled. */
  lemma YearEnabledDay(u: Utils, bag: RuleBag, t: int, m: int, k: int)
    requires 0 <= m < 12 && 1 <= k <= MonthLength(GetFullYear(u, t), m)
    requires !RulesMatch(u, bag, ModeDate(u, GetFullYear(u, t), m, k))
    ensures !IsYearDisabled(u, bag, t)
  {
    assert !AllDaysDisabled(u, bag, GetFullYear(u, t), m);
  }

  /** Each of 2021-01-01 .. 2021-01-12 has a day of its month (the 5th) disabled. */
  lemma JanuaryDayAsWritten(u: Utils, k: int)
    requires !u.useUtc && 1 <= k <= 12
    ensures !IsMonthDisabledAsWritten(u, OneDateBag(ModeDate(u, 2021, 0, 5)), DayOfMonthAsWritten(u, 2021, 0, k))
  {
    var d := ModeDate(u, 2021, 0, 5);
    var s := DayOfMonthAsWritten(u, 2021, 0, k);
    DayOfMonthInLocalMode(u, 2021, 0, k);
    DayOfMonthInLocalMode(u, 2021, 0, 5);
    OneDateBagMatches(u, d, d);
    assert GetDaysInMonth(u, s) == 31;
    MonthNotDisabledAsWritten(u, OneDateBag(d), s, 5);
  }

  /** The month rule as written fails as soon as one day of the month is disabled. */
  lemma MonthNotDisabledAsWritten(u: Utils, bag: RuleBag, t: int, k: int)
    requires !MonthDisabledViaTo(u, bag, t) && !MonthDisabledViaFrom(u, bag, t)
    requires 1 <= k <= GetDaysInMonth(u, t)
    requires RulesMatch(u, bag, DayOfMonthAsWritten(u, GetFullYear(u, t), GetMonth(u, t), k))
    ensures !IsMonthDisabledAsWritten(u, bag, t)
  {
  }

  // ---------------------------------------------------------------------
  // Earliest and latest enabled dates

  /** A search result; the source recursion has no bound, so the model carries fuel. */
  datatype Search = Found(date: int) | OutOfFuel

  /** Midnight of the following day in the active mode. */
  function NextDay(u: Utils, t: int): (r: int)
    ensures DayIndex(u, r) == DayIndex(u, t) + 1 && TimeOfDay(u, r) == 0
  {
    ModeTimeFields(u, DayIndex(u, t) + 1, 0);
    ModeMidnight(u, DayIndex(u, t) + 1)
  }

  /** Midnight of the preceding day in the active mode. */
  function PreviousDay(u: Utils, t: int): (r: int)
    ensures DayIndex(u, r) == DayIndex(u, t) - 1 && TimeOfDay(u, r) == 0
  {
    ModeTimeFields(u, DayIndex(u, t) - 1, 0);
    ModeMidnight(u, DayIndex(u, t) - 1)
  }

  /**
   * `getEarliestPossibleDate(date)`, corrected step: `date` itself when it
   * is enabled, else the first enabled midnight after it, found within
   * `fuel` days.
   */
  function GetEarliestPossibleDate(u: Utils, bag: RuleBag, t: int, fuel: nat): (r: Search)
    ensures !RulesMatch(u, bag, t) ==> r == Found(t)
    ensures r.Found? ==> !RulesMatch(u, bag, r.date)
    ensures r.Found? && r.date != t ==>
      TimeOfDay(u, r.date) == 0 && DayIndex(u, t) < DayIndex(u, r.date) <= DayIndex(u, t) + fuel
    decreases fuel
  {
    if !RulesMatch(u, bag, t) then Found(t)
    else if fuel == 0 then OutOfFuel
    else GetEarliestPossibleDate(u, bag, NextDay(u, t), fuel - 1)
  }

  /** The earliest search passes over disabled days only: it finds the first enabled one. */
  lemma {:induction false} EarliestIsFirst(u: Utils, bag: RuleBag, t: int, fuel: nat)
    ensures var r := GetEarliestPossibleDate(u, bag, t, fuel);
      r.Found? ==> forall z :: DayIndex(u, t) < z < DayIndex(u, r.date) ==> RulesMatch(u, bag, ModeMidnight(u, z))
    decreases fuel
  {
    if RulesMatch(u, bag, t) && fuel > 0 {
      var n := NextDay(u, t);
      var r := GetEarliestPossibleDate(u, bag, n, fuel - 1);
      assert GetEarliestPossibleDate(u, bag, t, fuel) == r;
      EarliestIsFirst(u, bag, n, fuel - 1);
      if r.Found? {
        forall z | DayIndex(u, t) < z < DayIndex(u, r.date) ensures RulesMatch(u, bag, ModeMidnight(u, z)) {
          if z == DayIndex(u, t) + 1 {
            assert ModeMidnight(u, z) == n;
          }
        }
      }
    }
  }

  /** The earliest search runs out of fuel exactly when `fuel` days after a disabled date are all disabled. */
  lemma {:induction false} EarliestOutOfFuel(u: Utils, bag: RuleBag, t: int, fuel: nat)
    ensures GetEarliestPossibleDate(u, bag, t, fuel).OutOfFuel? <==>
      RulesMatch(u, bag, t) && forall z :: DayIndex(u, t) < z <= DayIndex(u, t) + fuel ==> RulesMatch(u, bag, ModeMidnight(u, z))
    decreases fuel
  {
    if RulesMatch(u, bag, t) && fuel > 0 {
      var n := NextDay(u, t);
      var r := GetEarliestPossibleDate(u, bag, n, fuel - 1);
      assert GetEarliestPossibleDate(u, bag, t, fuel) == r;
      EarliestOutOfFuel(u, bag, n, fuel - 1);
      assert ModeMidnight(u, DayIndex(u, t) + 1) == n;
      if r.OutOfFuel? {
        forall z | DayIndex(u, t) < z <= DayIndex(u, t) + fuel ensures RulesMatch(u, bag, ModeMidnight(u, z)) {
          if z == DayIndex(u, t) + 1 {
            assert ModeMidnight(u, z) == n;
          }
        }
      }
    }
  }

  /** From a disabled date the earliest search can only move forward, to a midnight. */
  lemma EarliestAfterDisabledSeed(u: Utils, bag: RuleBag, t: int, fuel: nat)
    requires RulesMatch(u, bag, t)
    ensures GetEarliestPossibleDate(u, bag, t, fuel).Found? ==>
      GetEarliestPossibleDate(u, bag, t, fuel).date > t && TimeOfDay(u, GetEarliestPossibleDate(u, bag, t, fuel).date) == 0
  {
    var r := GetEarliestPossibleDate(u, bag, t, fuel);
    if r.Found? {
      ModeTimeOf(u, t);
      ModeTimeOf(u, r.date);
    }
  }

  /** `getLatestPossibleDate(date)`, corrected step: the mirror image of the earliest search. */
  function GetLatestPossibleDate(u: Utils, bag: RuleBag, t: int, fuel: nat): (r: Search)
    ensures !RulesMatch(u, bag, t) ==> r == Found(t)
    ensures r.Found? ==> !RulesMatch(u, bag, r.date)
    ensures r.Found? && r.date != t ==>
      TimeOfDay(u, r.date) == 0 && DayIndex(u, t) - fuel <= DayIndex(u, r.date) < DayIndex(u, t)
    decreases fuel
  {
    if !RulesMatch(u, bag, t) then Found(t)
    else if fuel == 0 then OutOfFuel
    else GetLatestPossibleDate(u, bag, PreviousDay(u, t), fuel - 1)
  }

  lemma {:induction false} LatestIsFirst(u: Utils, bag: RuleBag, t: int, fuel: nat)
    ensures var r := GetLatestPossibleDate(u, bag, t, fuel);
      r.Found? ==> forall z :: DayIndex(u, r.date) < z < DayIndex(u, t) ==> RulesMatch(u, bag, ModeMidnight(u, z))
    decreases fuel
  {
    if RulesMatch(u, bag, t) && fuel > 0 {
      var p := PreviousDay(u, t);
      var r := GetLatestPossibleDate(u, bag, p, fuel - 1);
      assert GetLatestPossibleDate(u, bag, t, fuel) == r;
      LatestIsFirst(u, bag, p, fuel - 1);
      if r.Found? {
        forall z | DayIndex(u, r.date) < z < DayIndex(u, t) ensures RulesMatch(u, bag, ModeMidnight(u, z)) {
          if z == DayIndex(u, t) - 1 {
            assert ModeMidnight(u, z) == p;
          }
        }
      }
    }
  }

  lemma LatestOutOfFuel(u: Utils, bag: RuleBag, t: int, fuel: nat)
    ensures GetLatestPossibleDate(u, bag, t, fuel).OutOfFuel? <==>
      RulesMatch(u, bag, t) && forall z :: DayIndex(u, t) - fuel <= z < DayIndex(u, t) ==> RulesMatch(u, bag, ModeMidnight(u, z))
  {
    if GetLatestPossibleDate(u, bag, t, fuel).OutOfFuel? {
      LatestOutOfFuelCovers(u, bag, t, fuel);
    }
    if RulesMatch(u, bag, t) && forall z :: DayIndex(u, t) - fuel <= z < DayIndex(u, t) ==> RulesMatch(u, bag, ModeMidnight(u, z)) {
      LatestOutOfFuelWhenCovered(u, bag, t, fuel);
    }
  }

  lemma {:induction false} LatestOutOfFuelCovers(u: Utils, bag: RuleBag, t: int, fuel: nat)
    requires GetLatestPossibleDate(u, bag, t, fuel).OutOfFuel?
    ensures RulesMatch(u, bag, t)
    ensures forall z :: DayIndex(u, t) - fuel <= z < DayIndex(u, t) ==> RulesMatch(u, bag, ModeMidnight(u, z))
    decreases fuel
  {
    if fuel > 0 {
      var p := PreviousDay(u, t);
      var dt := DayIndex(u, t);
      assert GetLatestPossibleDate(u, bag, p, fuel - 1).OutOfFuel?;
      LatestOutOfFuelCovers(u, bag, p, fuel - 1);
      forall z | dt - fuel <= z < dt ensures RulesMatch(u, bag, ModeMidnight(u, z)) {
        if z == dt - 1 {
          assert ModeMidnight(u, z) == p;
        } else {
          assert DayIndex(u, p) - (fuel - 1) <= z < DayIndex(u, p);
        }
      }
    }
  }

  lemma {:induction false} LatestOutOfFuelWhenCovered(u: Utils, bag: RuleBag, t: int, fuel: nat)
    requires RulesMatch(u, bag, t)
    requires forall z :: DayIndex(u, t) - fuel <= z < DayIndex(u, t) ==> RulesMatch(u, bag, ModeMidnight(u, z))
    ensures GetLatestPossibleDate(u, bag, t, fuel).OutOfFuel?
    decreases fuel
  {
    if fuel > 0 {
      var p := PreviousDay(u, t);
      var dt := DayIndex(u, t);
      assert ModeMidnight(u, dt - 1) == p;
      assert RulesMatch(u, bag, p);
      assert DayIndex(u, p) == dt - 1;
      LatestOutOfFuelWhenCovered(u, bag, p, fuel - 1);
    }
  }


  /** From a disabled date the latest search can only move backward, to a midnight. */
  lemma LatestBeforeDisabledSeed(u: Utils, bag: RuleBag, t: int, fuel: nat)
    requires RulesMatch(u, bag, t)
    ensures GetLatestPossibleDate(u, bag, t, fuel).Found? ==>
      GetLatestPossibleDate(u, bag, t, fuel).date < t && TimeOfDay(u, GetLatestPossibleDate(u, bag, t, fuel).date) == 0
  {
    var r := GetLatestPossibleDate(u, bag, t, fuel);
    if r.Found? {
      ModeTimeOf(u, t);
      ModeTimeOf(u, r.date);
    }
  }

  // ---------------------------------------------------------------------
  // The searches as written

  /** `new Date(getFullYear(date), getMonth(date), getDate(date) + 1)`: mode fields, local midnight. */
  function StepForwardAsWritten(u: Utils, t: int): int {
    LocalDate(u, GetFullYear(u, t), GetMonth(u, t), GetDate(u, t) + 1)
  }

  function StepBackAsWritten(u: Utils, t: int): int {
    LocalDate(u, GetFullYear(u, t), GetMonth(u, t), GetDate(u, t) - 1)
  }



  /** Both written searches: return the date if enabled, otherwise search again from `step(date)`. */
  function WalkAsWritten(disabled: int -> bool, step: int -> int, t: int, fuel: nat): (r: Search)
    ensures !disabled(t) ==> r == Found(t)
    ensures r.Found? ==> !disabled(r.date)
    decreases fuel
  {
    if !disabled(t) then Found(t)
    else if fuel == 0 then OutOfFuel
    else WalkAsWritten(disabled, step, step(t), fuel - 1)
  }

  /** `getEarliestPossibleDate` as written. */
  function EarliestAsWritten(u: Utils, bag: RuleBag, t: int, fuel: nat): Search {
    WalkAsWritten(x => RulesMatch(u, bag, x), x => StepForwardAsWritten(u, x), t, fuel)
  }

  /** `getLatestPossibleDate` as written. */
  function LatestAsWritten(u: Utils, bag: RuleBag, t: int, fuel: nat): Search {
    WalkAsWritten(x => RulesMatch(u, bag, x), x => StepBackAsWritten(u, x), t, fuel)
  }

  /** In local mode, away from years 0 to 99, the written step is the corrected one. */
  lemma StepsAgreeInLocalMode(u: Utils, t: int)
    requires !u.useUtc && !(0 <= GetFullYear(u, t) <= 99)
    ensures StepForwardAsWritten(u, t) == NextDay(u, t)
    ensures StepBackAsWritten(u, t) == PreviousDay(u, t)
  {
    var c := Fields(u, t);
    DaysRoundTrip(DayIndex(u, t));
    MakeDayValid(c.year, c.month, c.day);
    MakeDayShift(c.year, c.month, c.day, 1);
    MakeDayShift(c.year, c.month, c.day, -1);
    assert GetFullYear(u, t) == c.year && GetMonth(u, t) == c.month && GetDate(u, t) == c.day;
    assert FullYear(c.year) == c.year;
  }

  /**
   * In UTC mode with the machine's zone ahead of UTC, the written step
   * lands on local midnight of the next date, which is still the same UTC
   * day going forward and two UTC days back going backward.
   */
  lemma StepsInUtcMode(u: Utils, t: int)
    requires u.useUtc && 0 < u.localOffset < DayMs && !(0 <= GetFullYear(u, t) <= 99)
    ensures DayIndex(u, StepForwardAsWritten(u, t)) == DayIndex(u, t)
    ensures DayIndex(u, StepBackAsWritten(u, t)) == DayIndex(u, t) - 2
  {
    var c := Fields(u, t);
    var z := DayIndex(u, t);
    var zf, zb := MakeDay(c.year, c.month, c.day + 1), MakeDay(c.year, c.month, c.day - 1);
    assert zf == z + 1 && zb == z - 1 by {
      DaysRoundTrip(z);
      MakeDayValid(c.year, c.month, c.day);
      MakeDayShift(c.year, c.month, c.day, 1);
      MakeDayShift(c.year, c.month, c.day, -1);
    }
    assert GetFullYear(u, t) == c.year && GetMonth(u, t) == c.month && GetDate(u, t) == c.day;
    assert FullYear(c.year) == c.year;
    assert StepForwardAsWritten(u, t) == zf * DayMs - u.localOffset;
    assert StepBackAsWritten(u, t) == zb * DayMs - u.localOffset;
    UtcDayOfLocalMidnight(u, zf);
    UtcDayOfLocalMidnight(u, zb);
  }

  /** Ahead of UTC, local midnight of day `k` falls in UTC day `k - 1`. */
  lemma UtcDayOfLocalMidnight(u: Utils, k: int)
    requires u.useUtc && 0 < u.localOffset < DayMs
    ensures DayIndex(u, k * DayMs - u.localOffset) == k - 1
  {
    assert k * DayMs - u.localOffset == (k - 1) * DayMs + (DayMs - u.localOffset);
  }

  /**
   * Hence, in UTC mode ahead of UTC, the earliest search as written never
   * leaves a disabled day: with only that day disabled, it runs out of any
   * amount of fuel (the source recurses without end).
   */
  lemma EarliestAsWrittenStalls(u: Utils, d: int, t: int, fuel: nat)
    requires u.useUtc && 0 < u.localOffset < DayMs && !(0 <= GetFullYear(u, t) <= 99)
    requires DayIndex(u, t) == DayIndex(u, d)
    ensures EarliestAsWritten(u, OneDateBag(d), t, fuel) == OutOfFuel
  {
    var disabled := x => RulesMatch(u, OneDateBag(d), x);
    var step := x => StepForwardAsWritten(u, x);
    var onDay := x => DayIndex(u, x) == DayIndex(u, d) && !(0 <= GetFullYear(u, x) <= 99);
    forall x | onDay(x)
      ensures disabled(x) && onDay(step(x))
    {
      StallStep(u, d, x);
    }
    WalkStalls(disabled, step, onDay, t, fuel);
  }

  /** A written search started in a class of disabled dates that its step never leaves runs out of fuel. */
  lemma {:induction false} WalkStalls(disabled: int -> bool, step: int -> int, stuck: int -> bool, t: int, fuel: nat)
    requires stuck(t)
    requires forall x :: stuck(x) ==> disabled(x) && stuck(step(x))
    ensures WalkAsWritten(disabled, step, t, fuel) == OutOfFuel
    decreases fuel
  {
    assert disabled(t) && stuck(step(t));
    if fuel > 0 {
      WalkStalls(disabled, step, stuck, step(t), fuel - 1);
    }
  }

  /** One written step from the disabled day, in UTC mode ahead of UTC. */
  lemma StallStep(u: Utils, d: int, t: int)
    requires u.useUtc && 0 < u.localOffset < DayMs && !(0 <= GetFullYear(u, t) <= 99)
    requires DayIndex(u, t) == DayIndex(u, d)
    ensures RulesMatch(u, OneDateBag(d), t)
    ensures DayIndex(u, StepForwardAsWritten(u, t)) == DayIndex(u, d)
    ensures GetFullYear(u, StepForwardAsWritten(u, t)) == GetFullYear(u, t)
  {
    OneDateBagMatches(u, d, t);
    StepsInUtcMode(u, t);
  }

  /** The corrected search leaves the disabled day after one step, in every mode. */
  lemma EarliestLeavesDisabledDay(u: Utils, d: int)
    ensures GetEarliestPossibleDate(u, OneDateBag(d), d, 1) == Found(NextDay(u, d))
    ensures GetLatestPossibleDate(u, OneDateBag(d), d, 1) == Found(PreviousDay(u, d))
  {
    OneDateBagMatches(u, d, d);
    OneDateBagMatches(u, d, NextDay(u, d));
    OneDateBagMatches(u, d, PreviousDay(u, d));
  }

  /**
   * In UTC mode ahead of UTC, the latest search as written jumps two days
   * back and so skips the enabled day just before a single disabled day.
   */
  lemma LatestAsWrittenSkipsDay(u: Utils, d: int)
    requires u.useUtc && 0 < u.localOffset < DayMs && !(0 <= GetFullYear(u, d) <= 99)
    ensures LatestAsWritten(u, OneDateBag(d), d, 1) == Found(StepBackAsWritten(u, d))
    ensures DayIndex(u, StepBackAsWritten(u, d)) == DayIndex(u, d) - 2
    ensures !RulesMatch(u, OneDateBag(d), PreviousDay(u, d))
  {
    StepsInUtcMode(u, d);
    OneDateBagMatches(u, d, d);
    OneDateBagMatches(u, d, StepBackAsWritten(u, d));
    OneDateBagMatches(u, d, PreviousDay(u, d));
  }

  /**
   * The written step reads the year through `new Date(y, m, d)`, which maps
   * years 0 to 99 to 1900 to 1999: from a `to` of 0050-06-15 in local mode
   * the earliest search lands in 1950, the corrected one on 0050-06-16.
   */
  lemma TwoDigitYearJump(u: Utils)
    requires !u.useUtc
    ensures var to := ModeDate(u, 50, 5, 15);
      EarliestAsWritten(u, EmptyBag.(to := Set(At(to))), to, 1) == Found(LocalDate(u, 50, 5, 16))
      && GetFullYear(u, LocalDate(u, 50, 5, 16)) == 1950
  {
    var to := ModeDate(u, 50, 5, 15);
    var bag := EmptyBag.(to := Set(At(to)));
    TwoDigitWrittenStep(u);
    assert RulesMatch(u, bag, to) by {
      assert Fires(ToRule, u, bag, to);
    }
  }

  /** The corrected search from the same `to` stays in year 50. */
  lemma TwoDigitYearKept(u: Utils)
    requires !u.useUtc
    ensures var to := ModeDate(u, 50, 5, 15);
      GetEarliestPossibleDate(u, EmptyBag.(to := Set(At(to))), to, 1) == Found(ModeDate(u, 50, 5, 16))
      && GetFullYear(u, ModeDate(u, 50, 5, 16)) == 50
  {
    var to := ModeDate(u, 50, 5, 15);
    var bag := EmptyBag.(to := Set(At(to)));
    TwoDigitCorrectedStep(u);
    assert RulesMatch(u, bag, to) by {
      assert Fires(ToRule, u, bag, to);
    }
  }

  /** The written step from 0050-06-15 reads the year as 1950. */
  lemma TwoDigitWrittenStep(u: Utils)
    requires !u.useUtc
    ensures StepForwardAsWritten(u, ModeDate(u, 50, 5, 15)) == LocalDate(u, 50, 5, 16)
    ensures GetFullYear(u, LocalDate(u, 50, 5, 16)) == 1950
    ensures ModeDate(u, 50, 5, 15) < LocalDate(u, 50, 5, 16)
  {
    var to := ModeDate(u, 50, 5, 15);
    var jump := LocalDate(u, 50, 5, 16);
    ModeDateFields(u, 50, 5, 15);
    ModeDateFields(u, 1950, 5, 16);
    assert jump == ModeDate(u, 1950, 5, 16);
    InstantOrderedByMonth(u, to, jump);
  }

  /** The corrected step from 0050-06-15 is the next day of year 50. */
  lemma TwoDigitCorrectedStep(u: Utils)
    ensures NextDay(u, ModeDate(u, 50, 5, 15)) == ModeDate(u, 50, 5, 16)
    ensures GetFullYear(u, ModeDate(u, 50, 5, 16)) == 50
    ensures ModeDate(u, 50, 5, 15) < ModeDate(u, 50, 5, 16)
  {
    ModeDateFields(u, 50, 5, 15);
    ModeDateFields(u, 50, 5, 16);
    MakeDayShift(50, 5, 15, 1);
  }
}
