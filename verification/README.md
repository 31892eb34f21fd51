# vue-datepicker date-eligibility engine in Dafny

This project models the part of the vue-datepicker component that decides
which calendar cells may be picked. It also models the date arithmetic and
text handling that this decision relies on, and proves properties of the model.
The parts modelled:

- **Date utilities** (`useDateUtils.ts`):
  - field access in local or UTC mode;
  - `daysInMonth`, `getNthSuffix`, `formatDate`;
  - `getParsableDate`, `parseDate`, `parseAsDate`;
  - `compareDates`, `resetDateTime`, `adjustDateToView`, `getOpenDate`;
  - the day and month name lookups.
- **Rule-object helpers** (`cellUtils.ts`): `isDefined`, `hasArray`, `hasDate`, `dayMonthYear`.
- **Translation record** (`Language.ts`): its validating setters, `getDaysStartingOn` and the month-name lookups.
- **Disabled-date rules** (`DisabledDate.ts`):
  - the `to`, `from`, `ranges`, `customPredictor`, `dates`, `days` and `daysOfMonth` rules;
  - the month and year rules;
  - the searches for the earliest and the latest enabled date.
- **Page buttons** (`useDisabledDates.ts`): the null-config wrappers, the search seeds, and `isNextDisabled` / `isPreviousDisabled` for the day, month and year views.
- **Highlighting** (`HighlightedDate.ts` and `useHighlighted.ts`): the `includeDisabled` gate, `isDateHighlighted`, `isHighlightStart` and `isHighlightEnd`.

Modelling choices:

- **Instants**
  - A JavaScript `Date` is an integer count of milliseconds since the epoch.
  - `DateUtils.Utils(useUtc, localOffset)` is the date-utilities object.
  - In UTC mode the fields are read at offset 0. In local mode they are read at a fixed `localOffset`.
- **The calendar**
  - Day numbers and civil dates are converted by the Gregorian era decomposition in `Calendar`, proved to be mutually inverse.
  - `new Date(y, m, d)` is `DateUtils.LocalDate`. It always works in local time and includes ECMAScript's mapping of years 0–99 to 1900–1999.
  - `DateUtils.ModeDate` is the midnight of a date in the active mode.
- **Rule objects**
  - A rule object is a `CellUtils.RuleBag`.
  - Each property is `Unset`, `Malformed` (present but of the wrong kind) or `Set(value)`.
  - A date value is `InvalidDate` or `At(ms)`.
- **Error paths**
  - A thrown exception is a `Failure` carrying the JavaScript error.
  - A search that the source recurses without end, or past its fuel, ends `OutOfFuel`.
  - The page buttons report that case as `None`.
- **Corrected rules**
  - The month rule, the year rule and the two searches are modelled both as written and corrected.
  - The month length used by the month rule (src/utils/DisabledDate.ts:35-41) is the same computation as `getDaysInMonth`, so both use `DateUtils.GetDaysInMonth`.
  - `UseDisabledDates` and the highlighting modules use the corrected rules.
  - See "## Findings".

## Model

| member | source | states |
|---|---|---|
| Calendar.MonthLength | src/composables/useDateUtils.ts:96-98 | a Gregorian month has 28 to 31 days |
| Calendar.LeapPeriodic | src/composables/useDateUtils.ts:278 | the leap-year rule repeats every 400 years |
| Calendar.YearStartStep | src/composables/useDateUtils.ts:80-82 | consecutive years inside an era start 365 or 366 days apart, 366 exactly when a leap day falls between them |
| Calendar.YearOfEra | src/composables/useDateUtils.ts:80-82 | every day of an era lies in exactly the year whose start bounds it |
| Calendar.YearOfEraUnique | src/composables/useDateUtils.ts:80-82 | a day between the starts of year `yoe` and the next year is assigned year `yoe` |
| Calendar.MarchMonthOf | src/composables/useDateUtils.ts:88-90 | every day of a March-based year falls in exactly one month, between that month's start and the next month's |
| Calendar.MarchMonthLength | src/composables/useDateUtils.ts:96-98 | the span of each month in the civil-from-days table is that month's Gregorian length |
| Calendar.DaysRoundTrip | src/composables/useDateUtils.ts:80-106 | every day number maps to a valid civil date that maps back to the same day number |
| Calendar.CivilRoundTrip | src/composables/useDateUtils.ts:80-106 | every valid civil date maps to a day number that maps back to the same date |
| Calendar.MonthKeyMonotone | src/utils/DisabledDate.ts:94-119 | a later day never has an earlier (year, month) pair |
| Calendar.DaysOrderedByMonth | src/utils/DisabledDate.ts:94-119 | a day in an earlier (year, month) pair has a smaller day number |
| Calendar.Weekday | src/composables/useDateUtils.ts:112-114 | the weekday of a day number is in 0..6 |
| Calendar.WeekdayNext | src/composables/useDateUtils.ts:112-114 | each day's weekday is the previous day's plus one, wrapping from Saturday (6) to Sunday (0), and it repeats every seven days |
| Calendar.WeekdayAnchors | src/composables/useDateUtils.ts:112-114 | day 0 is 1 January 1970, a Thursday (4), and 2 October 2016 is a Sunday (0) |
| DateUtils.TimeOfDay | src/composables/useDateUtils.ts:419-423 | an instant splits into its day in the active mode and a time of day within 0..DayMs-1 |
| DateUtils.GetMonth | src/composables/useDateUtils.ts:88-90 | the month is 0-based, in 0..11 |
| DateUtils.GetDate | src/composables/useDateUtils.ts:104-106 | the day of the month is in 1..31 |
| DateUtils.GetDay | src/composables/useDateUtils.ts:112-114 | the weekday is in 0..6 |
| DateUtils.GetDayNextDay | src/composables/useDateUtils.ts:112-114 | twenty-four hours later is the next weekday, in either mode |
| DateUtils.GetDayAnchors | src/composables/useDateUtils.ts:112-114 | in either mode, midnight of 1 January 1970 is a Thursday (4) and midnight of 2 October 2016 a Sunday (0) |
| DateUtils.ModeTimeFields | src/composables/useDateUtils.ts:419-423 | building an instant from a day and a time of day gives back that day and that time of day |
| DateUtils.ModeTimeOf | src/composables/useDateUtils.ts:419-423 | every instant is rebuilt from its day and its time of day |
| DateUtils.InstantOrderedByMonth | src/utils/DisabledDate.ts:94-119 | an instant in an earlier (year, month) pair is the earlier instant |
| DateUtils.MakeDayValid | src/composables/useDateUtils.ts:155-157 | for a valid civil date, `new Date` arithmetic picks exactly that date |
| DateUtils.MakeDayShift | src/composables/useDateUtils.ts:155-157 | adding k to the day argument moves the result k days, across month and year ends |
| DateUtils.LocalDateInLocalMode | src/utils/DisabledDate.ts:218-222 | in local mode and for years from 100 on, `new Date(y, m, d)` is the mode midnight of that date |
| DateUtils.ModeDateFields | src/composables/useDateUtils.ts:431-433 | the mode midnight of a valid date reads back as that date, with time of day 0 |
| DateUtils.SetDateFields | src/composables/useDateUtils.ts:155-157 | `setDate` to a day in the month keeps year, month and time of day and changes only the day |
| DateUtils.SetMonthFields | src/composables/useDateUtils.ts:146-148 | `setMonth` to a month long enough for the current day keeps year, day and time of day and changes only the month |
| DateUtils.SetDateZero | src/composables/useDateUtils.ts:155-157 | `setDate(d, 0)` is the last day of the previous month: one day before the first of the month, same time of day |
| DateUtils.DaysInMonthGregorian | src/composables/useDateUtils.ts:273-281 | for months 0..11: 30 for April, June, September and November, 29 or 28 for February by the leap-year rule, 31 otherwise |
| DateUtils.MonthTextFacts | src/composables/useDateUtils.ts:274 | for months 0..11 the pattern 8, 3, 5 or 10 occurs in the month's decimal text exactly for 3, 5, 8 and 10 |
| DateUtils.DaysInMonthOutOfRange | src/composables/useDateUtils.ts:274 | the pattern also matches out-of-range month 13, which gets 30 days |
| DateUtils.GetDaysInMonth | src/composables/useDateUtils.ts:96-98 | the days in a date's month equal the Gregorian length of its year and month |
| DateUtils.NthSuffixIsEnglish | src/composables/useDateUtils.ts:289-304 | the suffix is `st` exactly for 1, 21 and 31, `nd` for 2 and 22, `rd` for 3 and 23, `th` otherwise |
| DateUtils.ResetDateTime | src/composables/useDateUtils.ts:419-423 | the reset instant is the start of the same day in the active mode, at most one day before the input |
| DateUtils.ResetIdempotent | src/composables/useDateUtils.ts:419-423 | resetting twice equals resetting once |
| DateUtils.ResetSameDay | src/composables/useDateUtils.ts:419-423 | two instants reset to the same value exactly when they are on the same day |
| DateUtils.CompareDates | src/composables/useDateUtils.ts:166-187 | two missing values compare equal; exactly one missing compares unequal; equal dates are valid and on the same day |
| DateUtils.CompareDatesFields | src/composables/useDateUtils.ts:166-187 | two valid dates compare equal exactly when year, month and day agree in the active mode |
| DateUtils.CompareDatesEquivalence | src/composables/useDateUtils.ts:166-187 | the comparison is symmetric, and reflexive on every value except an Invalid Date |
| DateUtils.Lookup | src/composables/useDateUtils.ts:207-212 | indexing a name array yields the entry when the index is in range and `undefined` otherwise |
| DateUtils.GetDayNameAbbr | src/composables/useDateUtils.ts:207-212 | with seven names, the abbreviation is the one at the date's weekday |
| DateUtils.AsciiLowerString | src/composables/useDateUtils.ts:219-226 | lower-casing acts character by character and keeps the length |
| DateUtils.GetDayFromAbbr | src/composables/useDateUtils.ts:219-226 | a result is the first index whose name matches case-insensitively; no match raises the source's error |
| DateUtils.GetMonthName | src/composables/useDateUtils.ts:234-245 | a missing array and a non-month argument each raise their own error; a month or a date's month indexes the array |
| DateUtils.ParseAsDate | src/composables/useDateUtils.ts:396-407 | nullish input gives null; a date is kept only when valid; a number is kept only inside the time-value range; a string goes through the engine parser |
| DateUtils.GetTime | src/composables/useDateUtils.ts:409-412 | the suffix is `T00:00:00`, followed by `Z` only in UTC mode |
| DateUtils.GetNewDateObject | src/composables/useDateUtils.ts:431-433 | the copy is the given date, or now when none is given, reset to its day's start |
| DateUtils.AdjustDateToView | src/composables/useDateUtils.ts:462-479 | the year view gives 1 January and the month view the 1st of the same month; every view gives time of day 0 |
| DateUtils.AdjustIdempotent | src/composables/useDateUtils.ts:462-479 | adjusting an adjusted date to the same view changes nothing |
| DateUtils.GetOpenDate | src/composables/useDateUtils.ts:442-452 | a valid model value wins; otherwise a valid open date; otherwise now; each is adjusted to the view |
| CellUtils.HasArray | src/utils/cellUtils.ts:16-21 | an array property is a defined property |
| CellUtils.HasDate | src/utils/cellUtils.ts:23-28 | a date property needs the utilities object, a defined property and a valid date |
| CellUtils.GetDayMonthYear | src/utils/cellUtils.ts:30-49 | without a date property all three fields are undefined; otherwise they are the day, month and year in the active mode |
| CellUtils.DefinedFields | src/utils/cellUtils.ts:9-14 | a rule property is defined exactly when it is present, malformed or not |
| CellUtils.ArrayFields | src/utils/cellUtils.ts:16-21 | an array rule counts exactly when it is present and well-formed |
| CellUtils.DateFields | src/utils/cellUtils.ts:23-28 | `to` and `from` count as dates exactly when the utilities exist and the value is a valid date; other keys never do |
| Language.SetLanguage | src/locale/Language.ts:34-39 | a non-string name raises TypeError; a string replaces only the name |
| Language.SetMonths | src/locale/Language.ts:45-52 | exactly twelve names are accepted and replace only the months; otherwise a RangeError naming the language |
| Language.SetMonthsAbbr | src/locale/Language.ts:58-65 | exactly twelve abbreviations are accepted; otherwise a RangeError naming the language |
| Language.SetDays | src/locale/Language.ts:71-78 | exactly seven names are accepted; otherwise a RangeError naming the language |
| Language.SettersPreserveValid | src/locale/Language.ts:34-78 | every successful setter keeps a valid translation valid |
| Language.MakeLanguage | src/locale/Language.ts:16-32 | construction succeeds exactly for a string name with 12, 12 and 7 entries; the result is valid and `rtl`, `ymd`, `yearSuffix` default to false, false and empty |
| Language.GetDaysStartingOn | src/locale/Language.ts:80-85 | the result is the day names rotated left by the first day of the week |
| Language.DaysStartingOnRotates | src/locale/Language.ts:80-85 | for seven names, entry i is `days[(i + k) mod 7]`, and the result is a permutation of the names |
| Language.GetMonthByAbbrName | src/locale/Language.ts:87-90 | an unknown abbreviation gives `00`; a known one gives its first 1-based position as two digits |
| Language.GetMonthByName | src/locale/Language.ts:92-95 | an unknown name gives `00`; a known one gives its first 1-based position as two digits |
| Language.TwoDigitsRoundTrip | src/locale/Language.ts:87-95 | the two-digit month text reads back as the month number |
| Language.MonthNameRoundTrip | src/locale/Language.ts:87-95 | with distinct names, looking up month m's name or abbreviation gives `m + 1` |
| JsText.NatToString | src/composables/useDateUtils.ts:340 | `String(n)` is a non-empty run of decimal digits without a leading zero |
| JsText.FindIndex | src/locale/Language.ts:87-95 | `indexOf` is the first matching position, and -1 exactly when there is none |
| JsText.IndexOf | src/composables/useDateUtils.ts:24-25 | the separator's first position, or the length when absent |
| JsText.SplitJoin | src/composables/useDateUtils.ts:24-25 | joining the pieces of a split gives back the text, and no piece contains the separator |
| JsText.JoinSplit | src/composables/useDateUtils.ts:24-25 | splitting pieces free of the separator after joining them gives back the pieces |
| JsText.DigitRun | src/composables/useDateUtils.ts:43 | `parseInt` reads the longest run of digits |
| JsText.ParseUnsignedDecimal | src/composables/useDateUtils.ts:43 | a run of decimal digits parses to its value |
| JsText.ParseIntOfIntToString | src/composables/useDateUtils.ts:43 | `parseInt(String(n))` is n for every integer |
| DateFormat.TokenizeCovers | src/composables/useDateUtils.ts:344-349 | the tokens of a format read back, in order, as the format |
| DateFormat.NextToken | src/composables/useDateUtils.ts:344 | the token is a prefix of the text; `yyyy` wins over `yy`; a run of `M` is taken up to four long and a run of `d` up to two, each stopping only at its cap or at another character; `o` and `E` are one-character tokens; the token is a one-character literal exactly when none of these starts the text (a lone `y` is a literal) |
| DateFormat.TokenizeLiterals | src/composables/useDateUtils.ts:344 | a text without pattern characters is all literals |
| DateFormat.PartsOf | src/composables/useDateUtils.ts:314-316 | the fields substituted are the date's year, month, day and weekday in the active mode |
| DateFormat.FormatTokensAppend | src/composables/useDateUtils.ts:346-349 | replacing matches distributes over concatenation |
| DateFormat.FormatCopiesLiterals | src/composables/useDateUtils.ts:346-349 | a format without pattern characters is copied unchanged |
| DateFormat.PadTwoIsTwoDigits | src/composables/useDateUtils.ts:333-337 | `dd` and `MM` pad to exactly two characters |
| DateFormat.ShortYear | src/composables/useDateUtils.ts:340 | for a four-digit year, `yy` is the year text after its first two characters |
| DateFormat.FormatDayMonthYear | src/composables/useDateUtils.ts:313-350 | `dd MMM yyyy` formats as padded day, month abbreviation and year, separated by spaces |
| DateFormat.FormatIso | src/composables/useDateUtils.ts:313-350 | `yyyy-MM-dd` formats as year, padded 1-based month and padded day |
| DateParse.Splitter | src/composables/useDateUtils.ts:23 | the splitter is the first `-`, `/`, white-space or `.` of the format, and there is none exactly when no such character occurs |
| DateParse.LastNaming | src/composables/useDateUtils.ts:28-45 | the segment whose value a field keeps is the last one naming it |
| DateParse.AssignFromFields | src/composables/useDateUtils.ts:28-45 | the segment loop fails exactly when a `d` segment has no typed partner; otherwise each field is written by the last segment naming it |
| DateParse.ParsableDateSpec | src/composables/useDateUtils.ts:20-48 | no separator raises the null-match error; otherwise year, month and day, defaulting to the current year, `01` and `01`, are joined by `-` before the time suffix |
| DateParse.ClassifyDd | src/composables/useDateUtils.ts:39-40 | a `dd` segment names the day |
| DateParse.ClassifyMMM | src/composables/useDateUtils.ts:33-34 | an `MMM` segment names the month by abbreviation |
| DateParse.ClassifyMM | src/composables/useDateUtils.ts:35-36 | an `MM` segment names the month by number |
| DateParse.ClassifyYyyy | src/composables/useDateUtils.ts:29-30 | a `yyyy` segment names the year |
| DateParse.ClassifyYy | src/composables/useDateUtils.ts:28-45 | a `yy` segment names nothing, so the year stays the current year |
| DateParse.StripDigitsSuffix | src/composables/useDateUtils.ts:42 | stripping a trailing `st`, `nd`, `rd` or `th` from digits leaves the digits |
| DateParse.OrdinalDayRoundTrip | src/composables/useDateUtils.ts:41-43 | a day written with its ordinal suffix reads back as the two-digit day |
| DateParse.ParseDateWithLibrary | src/composables/useDateUtils.ts:57-71 | a non-function parser and a non-function format each raise their own error; otherwise the parser's answer is returned |
| DateParse.ParseDate | src/composables/useDateUtils.ts:361-389 | empty text or format returns the text; a parser or format function goes to the library path; otherwise an unparsable rebuild returns the text |
| DateParse.RebuildText | src/composables/useDateUtils.ts:20-48 | `dd MMM yyyy` text rebuilds as year, month number and day joined by `-` |
| DateParse.FormatThenRebuild | src/composables/useDateUtils.ts:20-48 | text formatted with `dd MMM yyyy` rebuilds into the ISO date of the same calendar day |
| DateParse.FormatThenParse | src/composables/useDateUtils.ts:361-389 | text formatted with `dd MMM yyyy` parses back to the date with its time of day reset |
| DisabledDate.GetConfig | src/utils/DisabledDate.ts:15-33 | each `has` flag holds exactly when its property is well-formed |
| DisabledDate.DisabledViaTo | src/utils/DisabledDate.ts:48-50 | disabled exactly when `to` is a valid date and the date is at or before it |
| DisabledDate.DisabledViaFrom | src/utils/DisabledDate.ts:51-53 | disabled exactly when `from` is a valid date and the date is at or after it |
| DisabledDate.DisabledViaRange | src/utils/DisabledDate.ts:54-68 | disabled exactly when some range has both ends and contains the date, ends included |
| DisabledDate.DisabledViaCustomPredictor | src/utils/DisabledDate.ts:69-71 | disabled exactly when a predictor is given and returns true |
| DisabledDate.CompareDatesSameDay | src/utils/DisabledDate.ts:72-78 | a listed date matches exactly when it is valid and on the same day |
| DisabledDate.DisabledViaSpecificDate | src/utils/DisabledDate.ts:72-78 | disabled exactly when some listed date is on the same day |
| DisabledDate.DisabledViaDaysOfWeek | src/utils/DisabledDate.ts:79-83 | disabled exactly when the weekday is listed |
| DisabledDate.DisabledViaDaysOfMonth | src/utils/DisabledDate.ts:84-90 | disabled exactly when the day of the month is listed |
| DisabledDate.RulesMatch | src/utils/DisabledDate.ts:141-153 | a date is disabled exactly when one of the seven rules fires; an empty rule object disables nothing |
| DisabledDate.FiresExactly | src/utils/DisabledDate.ts:141-153 | some rule firing is exactly the disjunction of the seven rule checks |
| DisabledDate.OneDateBagMatches | src/utils/DisabledDate.ts:72-78 | a rule object listing one date disables exactly that date's day |
| DisabledDate.MonthDisabledViaTo | src/utils/DisabledDate.ts:100-108 | a month is disabled by `to` exactly when its (year, month) precedes `to`'s |
| DisabledDate.MonthDisabledViaFrom | src/utils/DisabledDate.ts:109-117 | a month is disabled by `from` exactly when its (year, month) follows `from`'s |
| DisabledDate.YearDisabledViaTo | src/utils/DisabledDate.ts:121-128 | a year is disabled by `to` exactly when it precedes `to`'s year |
| DisabledDate.YearDisabledViaFrom | src/utils/DisabledDate.ts:129-131 | a year is disabled by `from` exactly when it follows `from`'s year |
| DisabledDate.MonthBoundaryDisablesDays | src/utils/DisabledDate.ts:160-165 | every day of a month that a boundary disables is itself disabled |
| DisabledDate.YearBoundaryDisablesMonths | src/utils/DisabledDate.ts:189-194 | every month of a year that a boundary disables is disabled by the same boundary |
| DisabledDate.IsMonthDisabled | src/utils/DisabledDate.ts:160-182 | corrected: a month is disabled exactly when every one of its days is disabled |
| DisabledDate.IsYearDisabled | src/utils/DisabledDate.ts:189-209 | corrected: a year is disabled exactly when every day of every month is disabled |
| DisabledDate.MonthsOfYear | src/utils/DisabledDate.ts:196-208 | every month of the year being disabled is the same as every day of every month being disabled |
| DisabledDate.MonthFallbackInverted | src/utils/DisabledDate.ts:167-181 | as written, an empty rule object disables every month although no day is disabled |
| DisabledDate.YearFallbackCounterexample | src/utils/DisabledDate.ts:196-208 | as written, a single disabled day, 5 January 2021, disables the year 2021, while the corrected rule keeps it enabled |
| DisabledDate.YearEnabledDay | src/utils/DisabledDate.ts:189-209 | one enabled day keeps its year enabled |
| DisabledDate.MonthNotDisabledAsWritten | src/utils/DisabledDate.ts:167-181 | as written, one disabled day makes its month enabled |
| DisabledDate.DayOfMonthInUtcMode | src/utils/DisabledDate.ts:167-177 | as written, in UTC mode with the local zone ahead of UTC, the k-th day the month and year rules build is the active-mode midnight of day k - 1 |
| DisabledDate.FirstOfJanuaryInUtcMode | src/utils/DisabledDate.ts:167-177 | in that setting, the first day built for January 2021 reads back as 31 December 2020 |
| DisabledDate.DayOfMonthTwoDigitYear | src/utils/DisabledDate.ts:167-177 | as written, in local mode, the k-th day built for a month of year 0 to 99 is that day of year 1900 + y |
| DisabledDate.NextDay | src/utils/DisabledDate.ts:218-222 | the step forward is the next day's midnight in the active mode |
| DisabledDate.PreviousDay | src/utils/DisabledDate.ts:237-241 | the step back is the previous day's midnight in the active mode |
| DisabledDate.GetEarliestPossibleDate | src/utils/DisabledDate.ts:211-228 | an enabled date is returned unchanged; a found date is enabled and is a later midnight within the fuel |
| DisabledDate.EarliestIsFirst | src/utils/DisabledDate.ts:211-228 | every day skipped before the found date is disabled |
| DisabledDate.EarliestOutOfFuel | src/utils/DisabledDate.ts:211-228 | the search runs out exactly when the start and every later day within the fuel are disabled |
| DisabledDate.EarliestAfterDisabledSeed | src/utils/DisabledDate.ts:211-228 | from a disabled start, a found date is a later midnight |
| DisabledDate.GetLatestPossibleDate | src/utils/DisabledDate.ts:230-247 | an enabled date is returned unchanged; a found date is enabled and is an earlier midnight within the fuel |
| DisabledDate.LatestIsFirst | src/utils/DisabledDate.ts:230-247 | every day skipped after the found date is disabled |
| DisabledDate.LatestOutOfFuel | src/utils/DisabledDate.ts:230-247 | the search runs out exactly when the start and every earlier day within the fuel are disabled |
| DisabledDate.LatestBeforeDisabledSeed | src/utils/DisabledDate.ts:230-247 | from a disabled start, a found date is an earlier midnight |
| DisabledDate.WalkAsWritten | src/utils/DisabledDate.ts:211-247 | the search as written returns an enabled date unchanged and returns only enabled dates |
| DisabledDate.StepsAgreeInLocalMode | src/utils/DisabledDate.ts:211-247 | in local mode from year 100 on, the written step is exactly the next or previous day |
| DisabledDate.StepsInUtcMode | src/utils/DisabledDate.ts:211-247 | in UTC mode with a local zone ahead of UTC, the written forward step stays on the same UTC day and the backward step lands two days back |
| DisabledDate.EarliestAsWrittenStalls | src/utils/DisabledDate.ts:211-228 | in that setting, a single disabled day makes the search as written run out of any amount of fuel |
| DisabledDate.EarliestLeavesDisabledDay | src/utils/DisabledDate.ts:211-247 | corrected: from a single disabled day the searches find the next and the previous day |
| DisabledDate.LatestAsWrittenSkipsDay | src/utils/DisabledDate.ts:230-247 | as written in that setting, the backward search skips the enabled previous day |
| DisabledDate.TwoDigitYearJump | src/utils/DisabledDate.ts:218-222 | as written, the search past 15 June of year 50 returns a date in 1950 |
| DisabledDate.TwoDigitYearKept | src/utils/DisabledDate.ts:211-228 | corrected, the same search returns 16 June of year 50 |
| UseDisabledDates.DisabledConfigHas | src/composables/useDisabledDates.ts:35-46 | with no config nothing is present; otherwise each flag matches its property |
| UseDisabledDates.EarliestPossibleDate | src/composables/useDisabledDates.ts:47-53 | no config gives null; the search is seeded with `to`; a found date is enabled, later than `to`, and a midnight |
| UseDisabledDates.LatestPossibleDate | src/composables/useDisabledDates.ts:54-60 | no config gives null; the search is seeded with `from`; a found date is enabled, earlier than `from`, and a midnight |
| UseDisabledDates.FloorDiv | src/composables/useDisabledDates.ts:102-104 | `Math.floor(a / b)` brackets a between consecutive multiples of b, for either sign of b |
| UseDisabledDates.DecadeStart | src/composables/useDisabledDates.ts:102-104 | the page year lies in the year range starting at the decade start |
| UseDisabledDates.NextPageBoundary | src/composables/useDisabledDates.ts:79-118 | in local mode, with a page at midnight on the 1st of a month from year 100 on, a latest enabled midnight passes the next-page comparison exactly when its day comes before the first day of the next month (day view), of the next year (month view) or of the next year range (year view) |
| UseDisabledDates.PreviousPageBoundary | src/composables/useDisabledDates.ts:130-156 | in the same setting, an earliest enabled midnight passes the previous-page comparison exactly when its day is on or after the first day of the page's month (day view), year (month view) or year range (year view, when the range starts after year 100) |
| UseDisabledDates.IsNextDisabled | src/composables/useDisabledDates.ts:74-119 | false without `from`; otherwise true exactly when the latest enabled date lies before the next page |
| UseDisabledDates.IsPreviousDisabled | src/composables/useDisabledDates.ts:125-157 | false without `to`; otherwise true exactly when the earliest enabled date lies after the previous page |
| UseDisabledDates.NextDisabledMeaning | src/composables/useDisabledDates.ts:74-119 | a disabled next button means every day from the next page on is disabled, apart from `from`'s own day |
| UseDisabledDates.PreviousDisabledMeaning | src/composables/useDisabledDates.ts:125-157 | a disabled previous button means every day up to the previous page's end is disabled |
| UseDisabledDates.IsDisabledDate | src/composables/useDisabledDates.ts:164-168 | no config disables nothing; otherwise exactly the dates a rule disables |
| UseDisabledDates.IsDisabledMonth | src/composables/useDisabledDates.ts:175-179 | no config disables nothing; otherwise a month is disabled exactly when all its days are |
| UseDisabledDates.IsDisabledYear | src/composables/useDisabledDates.ts:186-190 | no config disables nothing; otherwise a year is disabled exactly when all its days are |
| HighlightedDate.IncludeDisabled | src/utils/HighlightedDate.ts:35-37 | `includeDisabled` counts only when given and true |
| HighlightedDate.HasRanges | src/utils/HighlightedDate.ts:23-45 | ranges are configured exactly when the property is an array |
| HighlightedDate.IsHighlightingNotPossible | src/utils/HighlightedDate.ts:47-54 | highlighting is blocked exactly when disabled dates are not included and the date is disabled |
| HighlightedDate.IsDateHighlighted | src/utils/HighlightedDate.ts:56-123 | highlighted exactly when a highlight rule fires and the date is not blocked as disabled |
| HighlightedDate.IncludeDisabledIgnoresDisabled | src/utils/HighlightedDate.ts:109-110 | with `includeDisabled`, the disabled config has no influence |
| HighlightedDate.ScanEnds | src/utils/HighlightedDate.ts:131-137 | the range scan answers true exactly at the first range whose end equals the date, and throws exactly when an earlier range lacks that end |
| HighlightedDate.IsHighlightStart | src/utils/HighlightedDate.ts:125-139 | false unless ranges are configured and the date is highlighted; true only when some range starts at exactly that instant |
| HighlightedDate.IsHighlightEnd | src/utils/HighlightedDate.ts:141-155 | false unless ranges are configured and the date is highlighted; true only when some range ends at exactly that instant |
| HighlightedDate.DefinedEndsDecide | src/utils/HighlightedDate.ts:125-155 | when every range has both ends, start and end hold exactly when the date is highlighted and some range starts or ends at it |
| HighlightedDate.FirstMatch | src/utils/HighlightedDate.ts:131-137 | with all ends present the scan never throws and answers whether some range end equals the date |
| UseHighlighted.IsHighlightedDate | src/composables/useHighlighted.ts:27-35 | no highlight config gives false; otherwise the highlighting answer for the given options |
| UseHighlighted.IsHighlightEnd | src/composables/useHighlighted.ts:42-50 | no highlight config gives false; true implies highlighted, ranges configured and a range ending at the date; when every range has both ends the call succeeds and is true exactly when the date is highlighted and some range ends at it |
| UseHighlighted.IsHighlightStart | src/composables/useHighlighted.ts:57-65 | no highlight config gives false; true implies highlighted, ranges configured and a range starting at the date; when every range has both ends the call succeeds and is true exactly when the date is highlighted and some range starts at it |
| UseHighlighted.DefaultsNeverGate | src/composables/useHighlighted.ts:14-17 | with the default options a date is highlighted exactly when a highlight rule fires |
| UseHighlighted.DisabledHighlightedOnlyWhenIncluded | src/composables/useHighlighted.ts:27-35 | a disabled date is highlighted exactly when `includeDisabled` is true and a highlight rule fires |
| Scenarios.DisablesToGivenDate | test/unit/specs/composables/useDisabledDates.spec.js:20-31 | `to` 13 October 2021 disables that day and not the 14th |
| Scenarios.DisablesListedDates | test/unit/specs/composables/useDisabledDates.spec.js:46-60 | listing 4 and 6 October 2016 disables those days and not the 5th |
| Scenarios.DisablesWeekend | test/unit/specs/composables/useDisabledDates.spec.js:82-93 | weekdays 6 and 0 disable Sunday 2 October 2016 and not Monday the 3rd |
| Scenarios.EarliestAfterTo | test/unit/specs/composables/useDisabledDates.spec.js:163-178 | `to` 3 October 2016 gives earliest date 4 October 2016 |
| Scenarios.LatestBeforeFrom | test/unit/specs/composables/useDisabledDates.spec.js:180-194 | `from` 27 October 2016 gives latest date 26 October 2016 |
| Scenarios.EarliestAfterToDay | src/composables/useDisabledDates.ts:47-53 | in local mode, a lone `to` gives the following day as the earliest date |
| Scenarios.LatestBeforeFromDay | src/composables/useDisabledDates.ts:54-60 | in local mode, a lone `from` gives the preceding day as the latest date |
| Scenarios.LatestBeforeOctober15 | test/unit/specs/composables/useDisabledDates.spec.js:284-326 | `from` 15 October 2016 gives latest date 14 October 2016 |
| Scenarios.EarliestSkipsListedDay | src/utils/DisabledDate.ts:211-228 | in local mode, with `to` and the day after it listed in `dates`, the earliest enabled date is two days after `to` |
| Scenarios.LatestSkipsListedDay | src/utils/DisabledDate.ts:230-247 | in local mode, with `from` and the day before it listed in `dates`, the latest enabled date is two days before `from` |
| Scenarios.EarliestAfterListedDate | test/unit/specs/PickerDay/disabledDates.spec.js:142-152 | `dates: [4 October 2016]` with `to` 3 October 2016 gives earliest date 5 October 2016 |
| Scenarios.LatestBeforeListedDate | test/unit/specs/PickerDay/disabledDates.spec.js:170-180 | `dates: [26 October 2016]` with `from` 27 October 2016 gives latest date 25 October 2016 |
| Scenarios.NextButtonMonthView | test/unit/specs/composables/useDisabledDates.spec.js:284-304 | with `from` 15 October 2016 the month view's next button is enabled on 2015 and disabled on 2016 |
| Scenarios.NextButtonYearView | test/unit/specs/composables/useDisabledDates.spec.js:306-326 | with `from` 15 October 2016 the year view's next button is enabled on the 2000s and disabled on the 2010s |
| Scenarios.PreviousButtonDayView | test/unit/specs/composables/useDisabledDates.spec.js:196-216 | with `to` 15 October 2016 the day view's previous button is disabled on October and enabled on November |
| Scenarios.MonthBeforeToDisabled | test/unit/specs/composables/useDisabledDates.spec.js:127-144 | with `to` 15 July 2021, June 2021 is disabled |
| Scenarios.MonthAfterFromDisabled | test/unit/specs/composables/useDisabledDates.spec.js:127-144 | with `from` 15 November 2021, December 2021 is disabled |
| Scenarios.MonthOfToEnabled | test/unit/specs/composables/useDisabledDates.spec.js:127-144 | July 2021, the month of `to`, stays enabled |
| Scenarios.HighlightedRangeEnds | test/unit/specs/composables/useHighlighted.spec.ts:166-214 | a highlighted range starts on its first day and ends on its last, and its last day is not a start |

## Left out

- The JavaScript time-value range of ±8.64e15 ms is not enforced, except on `parseAsDate`'s number path. Instants are unbounded integers elsewhere.
- Local time is a fixed offset. Daylight-saving transitions are not modelled.
- `getDayFromAbbr` folds case for ASCII letters only. Full Unicode `toLowerCase` is not modelled.
- `String(n)` is plain decimal. The exponent notation JavaScript uses for huge numbers does not occur for calendar years and is not modelled.
- `Date.parse` (useDateUtils.ts:382) is a parameter `dateParse` that returns an instant or nothing. The ECMA-262 Date Time String Format it reads is not modelled.
- The body of a `customPredictor` is a parameter. So are the current time (`new Date()`) and the current year.
- Vue reactivity (`computed`, `ref`, `convertToRef`, `usePageYear`) is not modelled. Options are plain parameters and `pageDate` is always present.
- The default `en` translation table is not part of this model. A translation is always passed explicitly.
- The setters `setFullYear`, `setMonth` and `setDate` return new instants instead of mutating a `Date`.
- The extension object of cellUtils.ts:51-57 is not modelled. The helpers take the date-utilities value directly, so its members are exactly the date utilities.
- `getHours`, `getMinutes` and `setFullYear` are modelled as field functions with range contracts only. Nothing in the eligibility engine depends on them further.
- `useNavigation`, `dom.js` and the JavaScript twins of the TypeScript files are not part of this model.
- DisabledDate.GetEarliestPossibleDate: bounded by a fuel of days. Where the source recurses without end, or beyond the fuel, the model answers `OutOfFuel`.
- DisabledDate.GetLatestPossibleDate: bounded by fuel in the same way.
- UseDisabledDates.EarliestPossibleDate: a config whose `to` is missing or not a valid date gives `Unseeded`. The source passes `undefined` to the search, and that case is not modelled further.
- UseDisabledDates.LatestPossibleDate: a missing or invalid `from` gives `Unseeded` in the same way.
- UseDisabledDates.IsNextDisabled: answers `None` when the search runs out of fuel. The source has no answer there.
- UseDisabledDates.IsPreviousDisabled: answers `None` when the search runs out of fuel, in the same way.
- HighlightedDate.IsHighlightStart: in general states only the implication "true ⇒ some range starts at the date". The equivalence is proved by HighlightedDate.DefinedEndsDecide when every range has both ends. Otherwise the source may throw on a range without `from`, which is modelled as a Failure.
- HighlightedDate.IsHighlightEnd: the same as IsHighlightStart, for `to`.
- DateFormat.FormatDayMonthYear: the closed form is proved for the two formats `dd MMM yyyy` and `yyyy-MM-dd` only. All other formats rest on the general tokenizer properties (TokenizeCovers, FormatTokensAppend, FormatCopiesLiterals).
- DateParse.FormatThenParse: proved for the `dd MMM yyyy` format only. It assumes that `Date.parse` reads the rebuilt ISO text plus the time suffix as that date's midnight in the active mode. It also needs distinct month abbreviations without spaces. For years outside 1000..9999 the rebuilt text is not an ISO date string (`yyyy` is not zero-padded and has no sign), so a real `Date.parse` does not meet that assumption and the round trip is not promised there.
- DateUtils.GetDayNameAbbr: the content is stated for seven day names. With another count the result is the array lookup. The source's `TypeError` for a non-object argument cannot arise, because the model's argument is always an instant.
- UseDisabledDates.IsDisabledMonth: uses the corrected month rule (DisabledDate.IsMonthDisabled). The rule as written, with its inverted fallback and, in UTC mode, its shifted days, is modelled and exhibited by the members named under "## Findings".
- UseDisabledDates.IsDisabledYear: uses the corrected year rule (DisabledDate.IsYearDisabled), for the same reason.
- UseDisabledDates.NextPageBoundary: stated for local mode, a page at midnight on the 1st of a month, years from 100 on and a midnight latest date. With a page on the 29th to 31st the day-view threshold overflows into the month after next, and in UTC mode the month and year thresholds are local-time instants; only the raw comparison (UseDisabledDates.BeforeNextPage) is stated there.
- UseDisabledDates.PreviousPageBoundary: stated in the same setting; in the year view, also only for ranges starting after year 100, since the year before would fall under the two-digit-year rule.

## Findings

| source | as written | input that shows it | evidently intended | confidence | as-written member | corrected member |
|---|---|---|---|---|---|---|
| src/utils/DisabledDate.ts:181 | the month fallback returns true when every day of the month is NOT disabled, the opposite of its comment | an empty rule object: every month is disabled while no day is | a month is disabled when every day of it is disabled | high, not executed | DisabledDate.MonthFallbackInverted | DisabledDate.IsMonthDisabled |
| src/utils/DisabledDate.ts:196-208 | the year fallback checks days 1..12 of the date's own month instead of the twelve months, and inherits the inverted month test | `dates: [5 January 2021]`, year of 1 January 2021: the year is disabled | a year is disabled when each of its twelve months is | high, not executed | DisabledDate.YearFallbackCounterexample | DisabledDate.IsYearDisabled |
| src/utils/DisabledDate.ts:218-222 | the next day is built with `new Date(y, m, d + 1)`, in local time, from fields read in UTC mode | UTC mode, local zone ahead of UTC, `dates` holding one day, searched from that day: the step stays on the same UTC day and the search never ends | step to the next day's midnight in the active mode | medium, not executed | DisabledDate.EarliestAsWrittenStalls | DisabledDate.EarliestLeavesDisabledDay |
| src/utils/DisabledDate.ts:167-177 | the days of the month (and, at lines 196-205, of the year rule) are built with `new Date(y, m, k)`, in local time, from fields read in UTC mode | UTC mode, local zone ahead of UTC, January 2021: the first day examined is 31 December 2020 and 31 January is never examined | the k-th day of the month at midnight in the active mode | medium, not executed | DisabledDate.DayOfMonthInUtcMode | DisabledDate.IsMonthDisabled |
| src/utils/DisabledDate.ts:167-177 | `new Date(y, m, k)` maps years 0..99 to 1900..1999 (also at lines 196-205) | local mode, a date in March of year 50: the month rule examines the days of March 1950 | the days of the date's own month | low, not executed | DisabledDate.DayOfMonthTwoDigitYear | DisabledDate.IsMonthDisabled |
| src/utils/DisabledDate.ts:237-241 | the previous day is built the same way | same setting, searched backwards: the step lands two UTC days back and skips the enabled previous day | step to the previous day's midnight in the active mode | medium, not executed | DisabledDate.LatestAsWrittenSkipsDay | DisabledDate.LatestIsFirst |
| src/utils/DisabledDate.ts:218-222 | `new Date(y, m, d + 1)` maps years 0..99 to 1900..1999 | local mode, `to` 15 June of year 50: the earliest date is 16 June 1950 | the next day of the same year | low, not executed | DisabledDate.TwoDigitYearJump | DisabledDate.TwoDigitYearKept |
