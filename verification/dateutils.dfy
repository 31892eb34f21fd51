/**
 * The mode-aware date utilities of the picker.
 *
 * An instant is an integer number of milliseconds since 1970-01-01T00:00Z.
 * A `Utils` value fixes the mode: in UTC mode calendar fields are read at
 * offset 0, otherwise at the machine's local offset, taken here as a fixed
 * number of milliseconds (no daylight-saving changes). The machine's offset
 * is part of `Utils` even in UTC mode, because `new Date(y, m, d)` always
 * builds local time.
 *
 * Setters return the new time value instead of mutating a Date.
 */
module DateUtils {
  import opened Wrappers
  import opened Calendar
  import opened JsText

  // ---------------------------------------------------------------------
  // Values

  datatype Utils = Utils(useUtc: bool, localOffset: int)

  /** A Date object held in a configuration: it may be an Invalid Date (time value NaN). */
  datatype DateObj = InvalidDate | At(ms: int)

  /** What a property of a plain object holds, as far as the picker's type tests can see. */
  datatype JsValue = Nullish | DateValue(date: DateObj) | ArrayValue | OtherValue

  /** The calendar views; `NoView` stands for a null view. */
  datatype View = DayView | MonthView | YearView | NoView

  /** What `parseAsDate` accepts. */
  datatype Input = NoInput | DateInput(date: DateObj) | StringInput(text: string) | NumberInput(n: int)

  /** A month argument: a Date (its time value), a month number, or anything else. */
  datatype MonthArg = MonthOfDate(t: int) | MonthNumber(n: int) | NotAMonth

  /** Largest magnitude of a valid ECMAScript time value. */
  const MaxTimeValue: int := 8640000000000000

  // ---------------------------------------------------------------------
  // Reading fields in the active mode

  function Offset(u: Utils): int {
    if u.useUtc then 0 else u.localOffset
  }

  /** The day number, in the active mode, of the day holding instant `t`. */
  function DayIndex(u: Utils, t: int): int {
    (t + Offset(u)) / DayMs
  }

  /** Milliseconds since the start of that day. */
  function TimeOfDay(u: Utils, t: int): (ms: int)
    ensures 0 <= ms < DayMs
    ensures t + Offset(u) == DayIndex(u, t) * DayMs + ms
  {
    (t + Offset(u)) % DayMs
  }

  /** The instant at which mode day `z` is `tod` milliseconds old. */
  function ModeTime(u: Utils, z: int, tod: int): int {
    z * DayMs + tod - Offset(u)
  }

  /** The instant at which mode day `z` starts. */
  function ModeMidnight(u: Utils, z: int): int {
    ModeTime(u, z, 0)
  }

  function Fields(u: Utils, t: int): Civil {
    CivilFromDays(DayIndex(u, t))
  }

  function GetFullYear(u: Utils, t: int): int {
    Fields(u, t).year
  }

  function GetMonth(u: Utils, t: int): (m: int)
    ensures 0 <= m < 12
  {
    DaysRoundTrip(DayIndex(u, t));
    Fields(u, t).month
  }

  function GetDate(u: Utils, t: int): (d: int)
    ensures 1 <= d <= 31
  {
    DaysRoundTrip(DayIndex(u, t));
    Fields(u, t).day
  }

  function GetDay(u: Utils, t: int): (w: int)
    ensures 0 <= w < 7
  {
    Weekday(DayIndex(u, t))
  }

  /** Twenty-four hours later is the next weekday, in either mode. */
  lemma GetDayNextDay(u: Utils, t: int)
    ensures GetDay(u, t + DayMs) == (GetDay(u, t) + 1) % 7
  {
    assert DayIndex(u, t + DayMs) == DayIndex(u, t) + 1;
    WeekdayNext(DayIndex(u, t));
  }

  /** Midnight of 1 January 1970 is a Thursday (4) and of 2 October 2016 a Sunday (0), in either mode. */
  lemma GetDayAnchors(u: Utils)
    ensures GetDay(u, ModeDate(u, 1970, 0, 1)) == 4
    ensures GetDay(u, ModeDate(u, 2016, 9, 2)) == 0
  {
    WeekdayAnchors();
    assert DayIndex(u, ModeDate(u, 1970, 0, 1)) == MakeDay(1970, 0, 1) == DaysFromCivil(1970, 0, 1);
    assert DayIndex(u, ModeDate(u, 2016, 9, 2)) == MakeDay(2016, 9, 2) == DaysFromCivil(2016, 9, 2);
  }

  function GetHours(u: Utils, t: int): (h: int)
    ensures 0 <= h < 24
  {
    TimeOfDay(u, t) / 3600000
  }

  function GetMinutes(u: Utils, t: int): (m: int)
    ensures 0 <= m < 60
  {
    (TimeOfDay(u, t) / 60000) % 60
  }

  /** The time values of a mode day and time of day decompose back into both. */
  lemma ModeTimeFields(u: Utils, z: int, tod: int)
    requires 0 <= tod < DayMs
    ensures DayIndex(u, ModeTime(u, z, tod)) == z
    ensures TimeOfDay(u, ModeTime(u, z, tod)) == tod
  {
    var t := ModeTime(u, z, tod);
    var q, r := DayIndex(u, t), TimeOfDay(u, t);
    assert z * DayMs + tod == q * DayMs + r;
    assert (z - q) * DayMs == r - tod;
  }

  /** Every instant is its mode day plus its time of day. */
  lemma ModeTimeOf(u: Utils, t: int)
    ensures ModeTime(u, DayIndex(u, t), TimeOfDay(u, t)) == t
  {
  }

  /** An instant whose mode month comes before another's is the earlier instant. */
  lemma InstantOrderedByMonth(u: Utils, s: int, t: int)
    requires MonthKey(Fields(u, s)) < MonthKey(Fields(u, t))
    ensures s < t
  {
    DaysOrderedByMonth(DayIndex(u, s), DayIndex(u, t));
  }

  // ---------------------------------------------------------------------
  // Building dates (ECMAScript MakeDay, month overflow included)

  /**
   * Day number of day `d` of month `m` of year `y`, where `m` may lie
   * outside 0..11 (it carries into the year) and `d` outside the month
   * (it carries into neighbouring months).
   */
  function MakeDay(y: int, m: int, d: int): int {
    DaysFromCivil(y + m / 12, m % 12, 1) + d - 1
  }

  /** For an in-range date, MakeDay lands on that very date. */
  lemma MakeDayValid(y: int, m: int, d: int)
    requires ValidCivil(Civil(y, m, d))
    ensures CivilFromDays(MakeDay(y, m, d)) == Civil(y, m, d)
    ensures MakeDay(y, m, d) == DaysFromCivil(y, m, d)
  {
    assert m / 12 == 0 && m % 12 == m;
    CivilRoundTrip(Civil(y, m, d));
  }

  /** MakeDay is linear in the day of month. */
  lemma MakeDayShift(y: int, m: int, d: int, k: int)
    ensures MakeDay(y, m, d + k) == MakeDay(y, m, d) + k
  {
  }

  /** The day after 31 December is 1 January of the next year. */
  lemma NewYear(y: int)
    ensures MakeDay(y, 11, 31) + 1 == MakeDay(y + 1, 0, 1)
  {
    assert MarchMonth(11) == 9 && MarchMonth(0) == 10;
    assert MarchStart(10) == MarchStart(9) + 31;
  }

  /** The two-digit-year rule of `new Date(y, m, d)`: years 0 to 99 mean 1900 to 1999. */
  function FullYear(y: int): int {
    if 0 <= y <= 99 then 1900 + y else y
  }

  /** `new Date(y, m, d)`: midnight of that date in LOCAL time, whatever the mode. */
  function LocalDate(u: Utils, y: int, m: int, d: int): int {
    MakeDay(FullYear(y), m, d) * DayMs - u.localOffset
  }

  /** Midnight of that date in the active mode, with no two-digit-year rule. */
  function ModeDate(u: Utils, y: int, m: int, d: int): int {
    ModeMidnight(u, MakeDay(y, m, d))
  }

  /** In local mode, and away from years 0 to 99, `new Date(y, m, d)` is the mode midnight of the date. */
  lemma LocalDateInLocalMode(u: Utils, y: int, m: int, d: int)
    requires !u.useUtc && !(0 <= y <= 99)
    ensures LocalDate(u, y, m, d) == ModeDate(u, y, m, d)
  {
  }

  /** The mode midnight of a real date reads back as that date. */
  lemma ModeDateFields(u: Utils, y: int, m: int, d: int)
    requires ValidCivil(Civil(y, m, d))
    ensures DayIndex(u, ModeDate(u, y, m, d)) == MakeDay(y, m, d)
    ensures TimeOfDay(u, ModeDate(u, y, m, d)) == 0
    ensures Fields(u, ModeDate(u, y, m, d)) == Civil(y, m, d)
  {
    MakeDayValid(y, m, d);
    ModeTimeFields(u, MakeDay(y, m, d), 0);
  }

  // ---------------------------------------------------------------------
  // Setters (they keep the time of day in the active mode)

  function SetFullYear(u: Utils, t: int, value: int): int {
    var c := Fields(u, t);
    ModeTime(u, MakeDay(value, c.month, c.day), TimeOfDay(u, t))
  }

  function SetMonth(u: Utils, t: int, value: int): int {
    var c := Fields(u, t);
    ModeTime(u, MakeDay(c.year, value, c.day), TimeOfDay(u, t))
  }

  function SetDate(u: Utils, t: int, value: int): int {
    var c := Fields(u, t);
    ModeTime(u, MakeDay(c.year, c.month, value), TimeOfDay(u, t))
  }

  /** Setting the day of month to one inside the month changes the day only. */
  lemma SetDateFields(u: Utils, t: int, v: int)
    requires 1 <= v <= MonthLength(GetFullYear(u, t), GetMonth(u, t))
    ensures Fields(u, SetDate(u, t, v)) == Civil(GetFullYear(u, t), GetMonth(u, t), v)
    ensures TimeOfDay(u, SetDate(u, t, v)) == TimeOfDay(u, t)
  {
    var c := Fields(u, t);
    ModeTimeFields(u, MakeDay(c.year, c.month, v), TimeOfDay(u, t));
    MakeDayValid(c.year, c.month, v);
  }

  /** Setting the month to one whose length holds the current day changes the month only. */
  lemma SetMonthFields(u: Utils, t: int, v: int)
    requires 0 <= v < 12 && GetDate(u, t) <= MonthLength(GetFullYear(u, t), v)
    ensures Fields(u, SetMonth(u, t, v)) == Civil(GetFullYear(u, t), v, GetDate(u, t))
    ensures TimeOfDay(u, SetMonth(u, t, v)) == TimeOfDay(u, t)
  {
    var c := Fields(u, t);
    DaysRoundTrip(DayIndex(u, t));
    ModeTimeFields(u, MakeDay(c.year, v, c.day), TimeOfDay(u, t));
    MakeDayValid(c.year, v, c.day);
  }

  /** Day 0 of a month is the day before its first day. */
  lemma SetDateZero(u: Utils, t: int)
    ensures DayIndex(u, SetDate(u, t, 0)) == DayIndex(u, SetDate(u, t, 1)) - 1
    ensures TimeOfDay(u, SetDate(u, t, 0)) == TimeOfDay(u, t)
  {
    var c := Fields(u, t);
    ModeTimeFields(u, MakeDay(c.year, c.month, 0), TimeOfDay(u, t));
    ModeTimeFields(u, MakeDay(c.year, c.month, 1), TimeOfDay(u, t));
  }

  // ---------------------------------------------------------------------
  // Month lengths and ordinal suffixes

  /** The month length as the source computes it: a regular expression over the month's decimal text, then the leap rule. */
  function DaysInMonth(year: int, month: int): int {
    var text := IntToString(month);
    if Contains(text, "8", false) || Contains(text, "3", false) || Contains(text, "5", false) || Contains(text, "10", false) then 30
    else if month == 1 then (if (year % 4 == 0 && year % 100 != 0) || year % 400 == 0 then 29 else 28)
    else 31
  }

  /** On real months the regular-expression test agrees with the Gregorian calendar. */
  lemma DaysInMonthGregorian(year: int, month: int)
    requires 0 <= month < 12
    ensures DaysInMonth(year, month) == MonthLength(year, month)
    ensures DaysInMonth(year, month) == 30 <==> month in {3, 5, 8, 10}
    ensures month == 1 ==> (DaysInMonth(year, month) == 29 <==> IsLeapYear(year))
    ensures month != 1 && !(month in {3, 5, 8, 10}) ==> DaysInMonth(year, month) == 31
  {
    MonthTextFacts(month);
  }

  /** The decimal text of each month number and which of the patterns it holds. */
  lemma MonthTextFacts(month: int)
    requires 0 <= month < 12
    ensures var text := IntToString(month);
      (Contains(text, "8", false) || Contains(text, "3", false) || Contains(text, "5", false) || Contains(text, "10", false))
      <==> month in {3, 5, 8, 10}
  {
    var text := IntToString(month);
    if month < 10 {
      assert text == [DigitChar(month)];
      NoMatchSingle(text, "10");
      if month !in {3, 5, 8} {
        NoMatchSingle(text, "8");
        NoMatchSingle(text, "3");
        NoMatchSingle(text, "5");
      } else {
        assert OccursAt(text, [text[0]], 0, false);
      }
    } else {
      assert text == NatToString(month / 10) + [DigitChar(month % 10)];
      assert text == ['1', DigitChar(month - 10)];
      if month == 10 {
        assert OccursAt(text, "10", 0, false);
      } else {
        NoMatchPair(text, "8");
        NoMatchPair(text, "3");
        NoMatchPair(text, "5");
        NoMatchPair(text, "10");
      }
    }
  }

  lemma NoMatchSingle(text: string, p: string)
    requires |text| == 1 && |p| >= 1 && (|p| > 1 || p[0] != text[0])
    ensures !Contains(text, p, false)
  {
    forall i | 0 <= i <= |text| ensures !OccursAt(text, p, i, false) {
      if i + |p| <= |text| {
        assert text[i] != p[0];
      }
    }
  }

  lemma NoMatchPair(text: string, p: string)
    requires |text| == 2 && text[0] == '1' && (text[1] == '1' || text[1] == '2')
    requires p in {"8", "3", "5", "10"}
    ensures !Contains(text, p, false)
  {
    forall i | 0 <= i <= |text| ensures !OccursAt(text, p, i, false) {
      if i + |p| <= |text| {
        if |p| == 1 {
          assert text[i] != p[0];
        } else {
          assert text[i + 1] != p[1];
        }
      }
    }
  }

  /** An out-of-range month still matches the pattern through its digits: month 13 reads as a 30-day month. */
  lemma DaysInMonthOutOfRange()
    ensures DaysInMonth(2020, 13) == 30
  {
    assert IntToString(13) == ['1', '3'];
    assert OccursAt(IntToString(13), "3", 1, false);
  }

  function GetDaysInMonth(u: Utils, t: int): (n: int)
    ensures n == MonthLength(GetFullYear(u, t), GetMonth(u, t))
  {
    DaysInMonthGregorian(GetFullYear(u, t), GetMonth(u, t));
    DaysInMonth(GetFullYear(u, t), GetMonth(u, t))
  }

  function GetNthSuffix(day: int): (s: string)
    ensures s in {"st", "nd", "rd", "th"}
  {
    match day
    case 1 => "st"
    case 21 => "st"
    case 31 => "st"
    case 2 => "nd"
    case 22 => "nd"
    case 3 => "rd"
    case 23 => "rd"
    case _ => "th"
  }

  /** The English ordinal suffix of a positive number: 11th to 13th are irregular. */
  function EnglishOrdinalSuffix(n: nat): string {
    if 11 <= n % 100 <= 13 then "th"
    else if n % 10 == 1 then "st"
    else if n % 10 == 2 then "nd"
    else if n % 10 == 3 then "rd"
    else "th"
  }

  /** On days of a month the switch agrees with the English rule. */
  lemma NthSuffixIsEnglish(day: int)
    requires 1 <= day <= 31
    ensures GetNthSuffix(day) == EnglishOrdinalSuffix(day)
    ensures GetNthSuffix(day) == "st" <==> day in {1, 21, 31}
    ensures GetNthSuffix(day) == "nd" <==> day in {2, 22}
    ensures GetNthSuffix(day) == "rd" <==> day in {3, 23}
  {
  }

  // ---------------------------------------------------------------------
  // Comparison and validity

  /** `setHours(0, 0, 0, 0)` in the active mode. */
  function ResetDateTime(u: Utils, t: int): (r: int)
    ensures TimeOfDay(u, r) == 0 && DayIndex(u, r) == DayIndex(u, t)
    ensures r <= t < r + DayMs
  {
    ModeTimeFields(u, DayIndex(u, t), 0);
    ModeTime(u, DayIndex(u, t), 0)
  }

  lemma ResetIdempotent(u: Utils, t: int)
    ensures ResetDateTime(u, ResetDateTime(u, t)) == ResetDateTime(u, t)
  {
  }

  /** Resetting leaves the calendar date alone and gives the same instant for every time of that day. */
  lemma ResetSameDay(u: Utils, a: int, b: int)
    ensures ResetDateTime(u, a) == ResetDateTime(u, b) <==> DayIndex(u, a) == DayIndex(u, b)
  {
  }

  /**
   * Dates equal up to time of day. Null and undefined are both `None`;
   * an Invalid Date never equals anything, since NaN is not equal to itself.
   */
  function CompareDates(u: Utils, a: Option<DateObj>, b: Option<DateObj>): (same: bool)
    ensures a.None? && b.None? ==> same
    ensures a.Some? != b.Some? ==> !same
    ensures same && a.Some? ==> a.value.At? && b.value.At? && DayIndex(u, a.value.ms) == DayIndex(u, b.value.ms)
  {
    if a.None? && b.None? then true
    else if a.None? || b.None? then false
    else match (a.value, b.value)
      case (At(x), At(y)) => ResetDateTime(u, x) == ResetDateTime(u, y)
      case _ => false
  }

  /** Two valid dates compare equal exactly when their mode calendar fields agree. */
  lemma CompareDatesFields(u: Utils, x: int, y: int)
    ensures CompareDates(u, Some(At(x)), Some(At(y))) <==> Fields(u, x) == Fields(u, y)
  {
    if Fields(u, x) == Fields(u, y) {
      DaysRoundTrip(DayIndex(u, x));
      DaysRoundTrip(DayIndex(u, y));
    }
  }

  /** Symmetric always; reflexive on everything but an Invalid Date. */
  lemma CompareDatesEquivalence(u: Utils, a: Option<DateObj>, b: Option<DateObj>)
    ensures CompareDates(u, a, b) == CompareDates(u, b, a)
    ensures CompareDates(u, a, a) <==> a != Some(InvalidDate)
  {
  }

  /** A Date object whose time value is not NaN. */
  predicate IsValidDate(v: JsValue)
  {
    v.DateValue? && v.date.At?
  }

  // ---------------------------------------------------------------------
  // Names

  /** `xs[i]`, with `None` for undefined. */
  function Lookup(xs: seq<string>, i: int): (r: Option<string>)
    ensures r.Some? <==> 0 <= i < |xs|
    ensures r.Some? ==> r.value == xs[i]
  {
    if 0 <= i < |xs| then Some(xs[i]) else None
  }

  /** The weekday name of an instant; a date object is required, so no error path is reachable here. */
  function GetDayNameAbbr(u: Utils, t: int, days: seq<string>): (r: Option<string>)
    ensures |days| == 7 ==> r == Some(days[GetDay(u, t)])
  {
    Lookup(days, GetDay(u, t))
  }

  function AsciiLowerString(s: string): (r: string)
    ensures |r| == |s| && forall i :: 0 <= i < |s| ==> r[i] == AsciiLower(s[i])
  {
    if |s| == 0 then "" else [AsciiLower(s[0])] + AsciiLowerString(s[1..])
  }

  /** Index of the first name in `enDays` equal to `abbr` ignoring case, or a TypeError. */
  function GetDayFromAbbr(abbr: string, enDays: seq<string>): (r: Result<int, JsError>)
    ensures r.Success? ==> 0 <= r.value < |enDays|
    ensures r.Success? ==> AsciiLowerString(abbr) == AsciiLowerString(enDays[r.value])
    ensures r.Success? ==> forall j :: 0 <= j < r.value ==> AsciiLowerString(abbr) != AsciiLowerString(enDays[j])
    ensures r.Failure? <==> forall j :: 0 <= j < |enDays| ==> AsciiLowerString(abbr) != AsciiLowerString(enDays[j])
    ensures r.Failure? ==> r.error == TypeError("Invalid week day")
  {
    FindDay(abbr, enDays, 0)
  }

  function FindDay(abbr: string, enDays: seq<string>, i: nat): (r: Result<int, JsError>)
    requires i <= |enDays|
    requires forall j :: 0 <= j < i ==> AsciiLowerString(abbr) != AsciiLowerString(enDays[j])
    ensures r.Success? ==> i <= r.value < |enDays|
    ensures r.Success? ==> AsciiLowerString(abbr) == AsciiLowerString(enDays[r.value])
    ensures r.Success? ==> forall j :: 0 <= j < r.value ==> AsciiLowerString(abbr) != AsciiLowerString(enDays[j])
    ensures r.Failure? <==> forall j :: 0 <= j < |enDays| ==> AsciiLowerString(abbr) != AsciiLowerString(enDays[j])
    ensures r.Failure? ==> r.error == TypeError("Invalid week day")
    decreases |enDays| - i
  {
    if i == |enDays| then Failure(TypeError("Invalid week day"))
    else if AsciiLowerString(abbr) == AsciiLowerString(enDays[i]) then Success(i)
    else FindDay(abbr, enDays, i + 1)
  }

  /**
   * The name of a month given as a Date or a number. A missing names array
   * is an Error, any other kind of month a TypeError; an index outside the
   * array reads as undefined (`None`).
   */
  function GetMonthName(u: Utils, month: MonthArg, months: Option<seq<string>>): (r: Result<Option<string>, JsError>)
    ensures months.None? <==> r == Failure(PlainError("missing 2nd parameter Months array"))
    ensures months.Some? && month.NotAMonth? ==> r == Failure(TypeError("Invalid type"))
    ensures months.Some? && month.MonthOfDate? && |months.value| == 12 ==> r == Success(Some(months.value[GetMonth(u, month.t)]))
    ensures months.Some? && month.MonthNumber? ==> r == Success(Lookup(months.value, month.n))
  {
    if months.None? then Failure(PlainError("missing 2nd parameter Months array"))
    else match month
      case MonthOfDate(t) => Success(Lookup(months.value, GetMonth(u, t)))
      case MonthNumber(n) => Success(Lookup(months.value, n))
      case NotAMonth => Failure(TypeError("Invalid type"))
  }

  /** `getMonthNameAbbr` has the same body as `getMonthName`, over the abbreviated names. */
  function GetMonthNameAbbr(u: Utils, month: MonthArg, monthsAbbr: Option<seq<string>>): Result<Option<string>, JsError> {
    GetMonthName(u, month, monthsAbbr)
  }

  // ---------------------------------------------------------------------
  // Parsing to a Date, time suffix, open date

  /** `new Date(n)` for an integral number: outside the time-value range the Date is invalid. */
  function TimeClip(n: int): Option<int> {
    if -MaxTimeValue <= n <= MaxTimeValue then Some(n) else None
  }

  /**
   * A Date, string or number turned into a valid instant, or `None` for
   * null. `dateParse` stands for the engine's `Date.parse`.
   */
  function ParseAsDate(input: Input, dateParse: string -> Option<int>): (r: Option<int>)
    ensures input.NoInput? ==> r.None?
    ensures input.DateInput? ==> (r.Some? <==> input.date.At?) && (r.Some? ==> r.value == input.date.ms)
    ensures input.NumberInput? ==> (r.Some? <==> -MaxTimeValue <= input.n <= MaxTimeValue) && (r.Some? ==> r.value == input.n)
    ensures input.StringInput? ==> r == dateParse(input.text)
  {
    match input
    case NoInput => None
    case DateInput(d) => if d.At? then Some(d.ms) else None
    case StringInput(s) => dateParse(s)
    case NumberInput(n) => TimeClip(n)
  }

  /** The time part appended to a rebuilt date string: `Z` marks UTC. */
  function GetTime(u: Utils): (s: string)
    ensures |s| == (if u.useUtc then 10 else 9)
    ensures s[..9] == "T00:00:00"
    ensures u.useUtc ==> s[9] == 'Z'
  {
    var time := "T00:00:00";
    if u.useUtc then time + "Z" else time
  }

  /** A copy of the date, or of now, at midnight in the active mode. */
  function GetNewDateObject(u: Utils, date: Option<int>, now: int): (r: int)
    ensures TimeOfDay(u, r) == 0
    ensures DayIndex(u, r) == DayIndex(u, date.GetOr(now))
  {
    if date.Some? then ResetDateTime(u, date.value) else ResetDateTime(u, now)
  }

  /** The date normalised to its view: start of its year, of its month, or of its day. */
  function AdjustDateToView(u: Utils, date: Option<int>, view: View, now: int): (r: int)
    ensures TimeOfDay(u, r) == 0
    ensures var c := Fields(u, GetNewDateObject(u, date, now));
      Fields(u, r) == (match view
        case YearView => Civil(c.year, 0, 1)
        case MonthView => Civil(c.year, c.month, 1)
        case _ => c)
  {
    var d := GetNewDateObject(u, date, now);
    DaysRoundTrip(DayIndex(u, d));
    if view == YearView then
      SetDateFields(u, d, 1);
      var resetDay := SetDate(u, d, 1);
      SetMonthFields(u, resetDay, 0);
      SetMonth(u, resetDay, 0)
    else if view == MonthView then
      SetDateFields(u, d, 1);
      SetDate(u, d, 1)
    else d
  }

  /** Normalising twice gives the same instant as normalising once. */
  lemma {:induction false} AdjustIdempotent(u: Utils, date: Option<int>, view: View, now: int)
    ensures AdjustDateToView(u, Some(AdjustDateToView(u, date, view, now)), view, now) == AdjustDateToView(u, date, view, now)
  {
    var r := AdjustDateToView(u, date, view, now);
    var r2 := AdjustDateToView(u, Some(r), view, now);
    assert GetNewDateObject(u, Some(r), now) == r by {
      ModeTimeOf(u, r);
    }
    DaysRoundTrip(DayIndex(u, r));
    DaysRoundTrip(DayIndex(u, r2));
    assert Fields(u, r2) == Fields(u, r);
    ModeTimeOf(u, r);
    ModeTimeOf(u, r2);
  }

  /**
   * The date the calendar opens on: the selected date when it parses,
   * otherwise the open date, otherwise today, normalised to the view.
   */
  function GetOpenDate(u: Utils, openDate: Input, modelValue: Input, view: View, now: int,
                       dateParse: string -> Option<int>): (r: int)
    ensures var m := ParseAsDate(modelValue, dateParse);
      m.Some? ==> r == AdjustDateToView(u, m, view, now)
    ensures var m := ParseAsDate(modelValue, dateParse);
      var o := ParseAsDate(openDate, dateParse);
      m.None? ==> r == AdjustDateToView(u, Some(o.GetOr(now)), view, now)
  {
    ResetIdempotent(u, ParseAsDate(openDate, dateParse).GetOr(now));
    var parsedOpenDate := ParseAsDate(openDate, dateParse);
    var openDateOrToday := GetNewDateObject(u, parsedOpenDate, now);
    var newOpenDate := match ParseAsDate(modelValue, dateParse)
      case Some(m) => m
      case None => openDateOrToday;
    AdjustDateToView(u, Some(newOpenDate), view, now)
  }
}
