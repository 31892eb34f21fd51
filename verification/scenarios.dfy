/**
 * Concrete cases from the repository's unit tests, in local mode with any
 * fixed zone offset. `new Date(y, m, d)` is `LocalDate`.
 */
module Scenarios {
  import opened Wrappers
  import opened Calendar
  import opened DateUtils
  import opened CellUtils
  import opened DisabledDate
  import opened UseDisabledDates
  import HighlightedDate
  import UseHighlighted

  /** A local-mode date of a year from 100 on is the mode midnight of that date. */
  lemma LocalDay(u: Utils, y: int, m: int, d: int)
    requires !u.useUtc && y >= 100 && ValidCivil(Civil(y, m, d))
    ensures LocalDate(u, y, m, d) == ModeDate(u, y, m, d)
    ensures Fields(u, LocalDate(u, y, m, d)) == Civil(y, m, d)
    ensures TimeOfDay(u, LocalDate(u, y, m, d)) == 0
    ensures DayIndex(u, LocalDate(u, y, m, d)) == MakeDay(y, m, d)
  {
    LocalDateInLocalMode(u, y, m, d);
    ModeDateFields(u, y, m, d);
  }

  function ToBag(u: Utils, y: int, m: int, d: int): RuleBag {
    EmptyBag.(to := Set(At(LocalDate(u, y, m, d))))
  }

  function FromBag(u: Utils, y: int, m: int, d: int): RuleBag {
    EmptyBag.(from := Set(At(LocalDate(u, y, m, d))))
  }

  /** `to: 2021-10-13` disables the 13th and not the 14th. */
  lemma DisablesToGivenDate(u: Utils)
    requires !u.useUtc
    ensures IsDisabledDate(u, Some(ToBag(u, 2021, 9, 13)), LocalDate(u, 2021, 9, 13))
    ensures !IsDisabledDate(u, Some(ToBag(u, 2021, 9, 13)), LocalDate(u, 2021, 9, 14))
  {
    MakeDayShift(2021, 9, 13, 1);
  }

  /** `dates: [2016-10-04, 2016-10-06]` disables exactly those two days around the 5th. */
  lemma DisablesListedDates(u: Utils)
    requires !u.useUtc
    ensures var bag := EmptyBag.(dates := Set([Some(At(LocalDate(u, 2016, 9, 4))), Some(At(LocalDate(u, 2016, 9, 6)))]));
      IsDisabledDate(u, Some(bag), LocalDate(u, 2016, 9, 4))
      && !IsDisabledDate(u, Some(bag), LocalDate(u, 2016, 9, 5))
      && IsDisabledDate(u, Some(bag), LocalDate(u, 2016, 9, 6))
  {
    var bag := EmptyBag.(dates := Set([Some(At(LocalDate(u, 2016, 9, 4))), Some(At(LocalDate(u, 2016, 9, 6)))]));
    var d4, d5, d6 := LocalDate(u, 2016, 9, 4), LocalDate(u, 2016, 9, 5), LocalDate(u, 2016, 9, 6);
    var z := MakeDay(2016, 9, 4);
    assert DayIndex(u, d4) == z && DayIndex(u, d5) == z + 1 && DayIndex(u, d6) == z + 2 by {
      LocalDay(u, 2016, 9, 4);
      LocalDay(u, 2016, 9, 5);
      LocalDay(u, 2016, 9, 6);
      MakeDayShift(2016, 9, 4, 1);
      MakeDayShift(2016, 9, 4, 2);
    }
    var ds := bag.dates.value;
    assert IsDisabledDate(u, Some(bag), d4) by {
      assert SameDay(u, ds[0], d4);
      DatesBagMatches(u, ds, d4);
    }
    assert !IsDisabledDate(u, Some(bag), d5) by {
      assert !SameDay(u, ds[0], d5) && !SameDay(u, ds[1], d5);
      DatesBagMatches(u, ds, d5);
    }
    assert IsDisabledDate(u, Some(bag), d6) by {
      assert SameDay(u, ds[1], d6);
      DatesBagMatches(u, ds, d6);
    }
  }

  /** A bag listing only dates disables exactly the mode days of the listed dates. */
  lemma DatesBagMatches(u: Utils, ds: seq<Option<DateObj>>, t: int)
    ensures IsDisabledDate(u, Some(EmptyBag.(dates := Set(ds))), t) <==> exists i :: 0 <= i < |ds| && SameDay(u, ds[i], t)
  {
    var bag := EmptyBag.(dates := Set(ds));
    if RulesMatch(u, bag, t) {
      var rule :| Fires(rule, u, bag, t);
      assert rule == SpecificDateRule;
    }
  }



  /** 2016-10-02 is day 17076 of the epoch. */
  lemma SundayOctober2()
    ensures MakeDay(2016, 9, 2) == 17076
    ensures MakeDay(2016, 9, 3) == 17077
  {
    assert 2016 / 400 == 5 && 2016 % 400 == 16;
    assert YearStart(16) == 5844;
    assert MarchStart(7) == 214;
  }

  /** The epoch day of an in-year date, from the era and year of era of its March-based year. */
  lemma DayNumber(y: int, m: int, d: int, era: int, yoe: int)
    requires 0 <= m < 12 && 0 <= yoe < 400
    requires (if m < 2 then y - 1 else y) == era * 400 + yoe
    ensures MakeDay(y, m, d) == era * EraDays + YearStart(yoe) + MarchStart(MarchMonth(m)) + d - 1 - EpochShift
  {
    assert m / 12 == 0 && m % 12 == m;
    DaysFromCivilParts(y, m, 1, era, yoe);
  }

  /** Epoch day numbers of the late-2015 and 2016 dates the page buttons compare. */
  lemma DayNumbers2016()
    ensures MakeDay(2015, 11, 31) == 16800
    ensures MakeDay(2016, 9, 0) == 17074
    ensures MakeDay(2016, 9, 14) == 17088
    ensures MakeDay(2016, 9, 16) == 17090
    ensures MakeDay(2016, 10, 0) == 17105
    ensures MakeDay(2016, 11, 31) == 17166
  {
    assert YearStart(15) == 5478 && YearStart(16) == 5844;
    assert MarchStart(7) == 214 && MarchStart(8) == 245 && MarchStart(9) == 275;
    DayNumber(2015, 11, 31, 5, 15);
    DayNumber(2016, 9, 0, 5, 16);
    DayNumber(2016, 9, 14, 5, 16);
    DayNumber(2016, 9, 16, 5, 16);
    DayNumber(2016, 10, 0, 5, 16);
    DayNumber(2016, 11, 31, 5, 16);
  }

  /** Epoch day numbers of the first days of 2010 and 2020. */
  lemma DecadeDayNumbers()
    ensures MakeDay(2010, 0, 1) == 14610
    ensures MakeDay(2020, 0, 1) == 18262
  {
    assert YearStart(9) == 3287 && YearStart(19) == 6939;
    assert MarchStart(10) == 306;
    DayNumber(2010, 0, 1, 5, 9);
    DayNumber(2020, 0, 1, 5, 19);
  }

  /** Epoch day numbers of 2021-07-15 and 2021-11-15. */
  lemma DayNumbers2021()
    ensures MakeDay(2021, 6, 15) == 18823
    ensures MakeDay(2021, 10, 15) == 18946
  {
    assert YearStart(21) == 7670;
    assert MarchStart(4) == 122 && MarchStart(8) == 245;
    DayNumber(2021, 6, 15, 5, 21);
    DayNumber(2021, 10, 15, 5, 21);
  }

  /** `days: [6, 0]` disables Sunday 2016-10-02 and not Monday 2016-10-03. */
  lemma DisablesWeekend(u: Utils)
    requires !u.useUtc
    ensures IsDisabledDate(u, Some(EmptyBag.(days := Set([6, 0]))), LocalDate(u, 2016, 9, 2))
    ensures !IsDisabledDate(u, Some(EmptyBag.(days := Set([6, 0]))), LocalDate(u, 2016, 9, 3))
  {
    LocalDay(u, 2016, 9, 2);
    LocalDay(u, 2016, 9, 3);
    SundayOctober2();
    assert DayIndex(u, LocalDate(u, 2016, 9, 2)) == 17076;
    assert DayIndex(u, LocalDate(u, 2016, 9, 3)) == 17077;
    assert 17076 + 4 == 7 * 2440;
    assert Weekday(17076) == 0 && Weekday(17077) == 1;
  }

  /** With only `to` set, the earliest enabled date is the day after `to`. */
  lemma EarliestAfterToDay(u: Utils, y: int, m: int, d: int)
    requires !u.useUtc && y >= 100 && ValidCivil(Civil(y, m, d)) && ValidCivil(Civil(y, m, d + 1))
    ensures EarliestPossibleDate(u, Some(ToBag(u, y, m, d)), 1) == Searched(Found(LocalDate(u, y, m, d + 1)))
  {
    var bag := ToBag(u, y, m, d);
    LocalDay(u, y, m, d);
    LocalDay(u, y, m, d + 1);
    MakeDayShift(y, m, d, 1);
    assert NextDay(u, LocalDate(u, y, m, d)) == LocalDate(u, y, m, d + 1);
    assert RulesMatch(u, bag, LocalDate(u, y, m, d));
    assert !RulesMatch(u, bag, LocalDate(u, y, m, d + 1));
  }

  /** With only `from` set, the latest enabled date is the day before `from`. */
  lemma LatestBeforeFromDay(u: Utils, y: int, m: int, d: int)
    requires !u.useUtc && y >= 100 && ValidCivil(Civil(y, m, d)) && ValidCivil(Civil(y, m, d - 1))
    ensures LatestPossibleDate(u, Some(FromBag(u, y, m, d)), 1) == Searched(Found(LocalDate(u, y, m, d - 1)))
  {
    var bag := FromBag(u, y, m, d);
    LocalDay(u, y, m, d);
    LocalDay(u, y, m, d - 1);
    MakeDayShift(y, m, d - 1, 1);
    assert PreviousDay(u, LocalDate(u, y, m, d)) == LocalDate(u, y, m, d - 1);
    assert RulesMatch(u, bag, LocalDate(u, y, m, d));
    assert !RulesMatch(u, bag, LocalDate(u, y, m, d - 1));
  }

  /** In local mode, consecutive `new Date(y, m, d)` values are one day apart and one search step apart. */
  lemma AdjacentLocalDays(u: Utils, y: int, m: int, d: int)
    requires !u.useUtc && y >= 100
    ensures LocalDate(u, y, m, d + 1) == LocalDate(u, y, m, d) + DayMs
    ensures DayIndex(u, LocalDate(u, y, m, d + 1)) == DayIndex(u, LocalDate(u, y, m, d)) + 1
    ensures NextDay(u, LocalDate(u, y, m, d)) == LocalDate(u, y, m, d + 1)
    ensures PreviousDay(u, LocalDate(u, y, m, d + 1)) == LocalDate(u, y, m, d)
  {
    MakeDayShift(y, m, d, 1);
    var z := MakeDay(y, m, d);
    assert LocalDate(u, y, m, d) + u.localOffset == z * DayMs;
    assert DayIndex(u, LocalDate(u, y, m, d)) == z;
    assert LocalDate(u, y, m, d + 1) + u.localOffset == (z + 1) * DayMs;
    assert DayIndex(u, LocalDate(u, y, m, d + 1)) == z + 1;
  }

  /** With `to` and the day after it listed in `dates`, the earliest enabled date is two days after `to`. */
  lemma EarliestSkipsListedDay(u: Utils, y: int, m: int, d: int)
    requires !u.useUtc && y >= 100
    ensures var bag := ToBag(u, y, m, d).(dates := Set([Some(At(LocalDate(u, y, m, d + 1)))]));
      EarliestPossibleDate(u, Some(bag), 2) == Searched(Found(LocalDate(u, y, m, d + 2)))
  {
    var bag := ToBag(u, y, m, d).(dates := Set([Some(At(LocalDate(u, y, m, d + 1)))]));
    var t0, t1, t2 := LocalDate(u, y, m, d), LocalDate(u, y, m, d + 1), LocalDate(u, y, m, d + 2);
    AdjacentLocalDays(u, y, m, d);
    AdjacentLocalDays(u, y, m, d + 1);
    assert Fires(ToRule, u, bag, t0);
    assert Fires(SpecificDateRule, u, bag, t1);
    assert !RulesMatch(u, bag, t2);
  }

  /** With `from` and the day before it listed in `dates`, the latest enabled date is two days before `from`. */
  lemma LatestSkipsListedDay(u: Utils, y: int, m: int, d: int)
    requires !u.useUtc && y >= 100
    ensures var bag := FromBag(u, y, m, d).(dates := Set([Some(At(LocalDate(u, y, m, d - 1)))]));
      LatestPossibleDate(u, Some(bag), 2) == Searched(Found(LocalDate(u, y, m, d - 2)))
  {
    var bag := FromBag(u, y, m, d).(dates := Set([Some(At(LocalDate(u, y, m, d - 1)))]));
    var t0, t1, t2 := LocalDate(u, y, m, d), LocalDate(u, y, m, d - 1), LocalDate(u, y, m, d - 2);
    AdjacentLocalDays(u, y, m, d - 1);
    AdjacentLocalDays(u, y, m, d - 2);
    assert Fires(FromRule, u, bag, t0);
    assert Fires(SpecificDateRule, u, bag, t1);
    assert !RulesMatch(u, bag, t2);
  }

  /** `dates: [2016-10-04]` with `to: 2016-10-03` gives earliest date 2016-10-05. */
  lemma EarliestAfterListedDate(u: Utils)
    requires !u.useUtc
    ensures EarliestPossibleDate(u, Some(ToBag(u, 2016, 9, 3).(dates := Set([Some(At(LocalDate(u, 2016, 9, 4)))]))), 2)
            == Searched(Found(LocalDate(u, 2016, 9, 5)))
  {
    EarliestSkipsListedDay(u, 2016, 9, 3);
  }

  /** `dates: [2016-10-26]` with `from: 2016-10-27` gives latest date 2016-10-25. */
  lemma LatestBeforeListedDate(u: Utils)
    requires !u.useUtc
    ensures LatestPossibleDate(u, Some(FromBag(u, 2016, 9, 27).(dates := Set([Some(At(LocalDate(u, 2016, 9, 26)))]))), 2)
            == Searched(Found(LocalDate(u, 2016, 9, 25)))
  {
    LatestSkipsListedDay(u, 2016, 9, 27);
  }

  /** The earliest enabled date after `to: 2016-10-03` is 2016-10-04. */
  lemma EarliestAfterTo(u: Utils)
    requires !u.useUtc
    ensures EarliestPossibleDate(u, Some(ToBag(u, 2016, 9, 3)), 1) == Searched(Found(LocalDate(u, 2016, 9, 4)))
  {
    EarliestAfterToDay(u, 2016, 9, 3);
  }

  /** The latest enabled date before `from: 2016-10-27` is 2016-10-26. */
  lemma LatestBeforeFrom(u: Utils)
    requires !u.useUtc
    ensures LatestPossibleDate(u, Some(FromBag(u, 2016, 9, 27)), 1) == Searched(Found(LocalDate(u, 2016, 9, 26)))
  {
    LatestBeforeFromDay(u, 2016, 9, 27);
  }

  /** With `from: 2016-10-15` the latest enabled date is 2016-10-14. */
  lemma LatestBeforeOctober15(u: Utils)
    requires !u.useUtc
    ensures LatestPossibleDate(u, Some(FromBag(u, 2016, 9, 15)), 1) == Searched(Found(LocalDate(u, 2016, 9, 14)))
  {
    LatestBeforeFromDay(u, 2016, 9, 15);
  }

  /** With `from: 2016-10-15` the next button is enabled on 2015's month page and disabled on 2016's. */
  lemma NextButtonMonthView(u: Utils)
    requires !u.useUtc
    ensures IsNextDisabled(u, Some(FromBag(u, 2016, 9, 15)), MonthView, LocalDate(u, 2015, 0, 1), 10, 1) == Some(false)
    ensures IsNextDisabled(u, Some(FromBag(u, 2016, 9, 15)), MonthView, LocalDate(u, 2016, 0, 1), 10, 1) == Some(true)
  {
    LatestBeforeFromDay(u, 2016, 9, 15);
    var latest := LocalDate(u, 2016, 9, 14);
    assert latest == 17088 * DayMs - u.localOffset by {
      DayNumbers2016();
    }
    assert PageYear(u, LocalDate(u, 2015, 0, 1)) == 2015 by {
      LocalDay(u, 2015, 0, 1);
    }
    assert PageYear(u, LocalDate(u, 2016, 0, 1)) == 2016 by {
      LocalDay(u, 2016, 0, 1);
    }
    assert LocalDate(u, 2015, 11, 31) == 16800 * DayMs - u.localOffset by {
      DayNumbers2016();
    }
    assert LocalDate(u, 2016, 11, 31) == 17166 * DayMs - u.localOffset by {
      DayNumbers2016();
    }
    assert !BeforeNextPage(u, latest, MonthView, LocalDate(u, 2015, 0, 1), 10);
    assert BeforeNextPage(u, latest, MonthView, LocalDate(u, 2016, 0, 1), 10);
  }

  /** With `from: 2016-10-15` the next button is enabled on the 2000s page and disabled on the 2010s. */
  lemma NextButtonYearView(u: Utils)
    requires !u.useUtc
    ensures IsNextDisabled(u, Some(FromBag(u, 2016, 9, 15)), YearView, LocalDate(u, 2000, 0, 1), 10, 1) == Some(false)
    ensures IsNextDisabled(u, Some(FromBag(u, 2016, 9, 15)), YearView, LocalDate(u, 2010, 0, 1), 10, 1) == Some(true)
  {
    LatestBeforeFromDay(u, 2016, 9, 15);
    var latest := LocalDate(u, 2016, 9, 14);
    assert latest == 17088 * DayMs - u.localOffset by {
      DayNumbers2016();
    }
    assert PageDecadeEnd(u, LocalDate(u, 2000, 0, 1), 10) == 2009 by {
      LocalDay(u, 2000, 0, 1);
      assert DecadeStart(2000, 10) == 2000;
    }
    assert PageDecadeEnd(u, LocalDate(u, 2010, 0, 1), 10) == 2019 by {
      LocalDay(u, 2010, 0, 1);
      assert DecadeStart(2010, 10) == 2010;
    }
    assert LocalDate(u, 2010, 0, 1) == 14610 * DayMs - u.localOffset by {
      DecadeDayNumbers();
    }
    assert LocalDate(u, 2020, 0, 1) == 18262 * DayMs - u.localOffset by {
      DecadeDayNumbers();
    }
    assert !BeforeNextPage(u, latest, YearView, LocalDate(u, 2000, 0, 1), 10);
    assert BeforeNextPage(u, latest, YearView, LocalDate(u, 2010, 0, 1), 10);
  }

  /** With `to: 2016-10-15` the previous button is disabled on October's page and enabled on November's. */
  lemma PreviousButtonDayView(u: Utils)
    requires !u.useUtc
    ensures IsPreviousDisabled(u, Some(ToBag(u, 2016, 9, 15)), DayView, LocalDate(u, 2016, 9, 1), 10, 1) == Some(true)
    ensures IsPreviousDisabled(u, Some(ToBag(u, 2016, 9, 15)), DayView, LocalDate(u, 2016, 10, 1), 10, 1) == Some(false)
  {
    EarliestAfterToDay(u, 2016, 9, 15);
    var e := LocalDate(u, 2016, 9, 16);
    assert e == 17090 * DayMs - u.localOffset by {
      DayNumbers2016();
    }
    assert SetDate(u, LocalDate(u, 2016, 9, 1), 0) == 17074 * DayMs - u.localOffset by {
      DayNumbers2016();
      LocalDay(u, 2016, 9, 1);
    }
    assert SetDate(u, LocalDate(u, 2016, 10, 1), 0) == 17105 * DayMs - u.localOffset by {
      DayNumbers2016();
      LocalDay(u, 2016, 10, 1);
    }
    assert AfterPreviousPage(u, e, DayView, LocalDate(u, 2016, 9, 1), 10);
    assert !AfterPreviousPage(u, e, DayView, LocalDate(u, 2016, 10, 1), 10);
  }


  /** The month test's option: `to: 2021-07-15`, `from: 2021-11-15`. */
  function BoundsBag(u: Utils): RuleBag {
    EmptyBag.(to := Set(At(LocalDate(u, 2021, 6, 15))), from := Set(At(LocalDate(u, 2021, 10, 15))))
  }

  /** Below `to`, June 2021 is a disabled month. */
  lemma MonthBeforeToDisabled(u: Utils)
    requires !u.useUtc
    ensures IsDisabledMonth(u, Some(BoundsBag(u)), LocalDate(u, 2021, 5, 1))
  {
    LocalDay(u, 2021, 6, 15);
    LocalDay(u, 2021, 5, 1);
    assert MonthDisabledViaTo(u, BoundsBag(u), LocalDate(u, 2021, 5, 1));
  }

  /** Above `from`, December 2021 is a disabled month. */
  lemma MonthAfterFromDisabled(u: Utils)
    requires !u.useUtc
    ensures IsDisabledMonth(u, Some(BoundsBag(u)), LocalDate(u, 2021, 11, 1))
  {
    LocalDay(u, 2021, 10, 15);
    LocalDay(u, 2021, 11, 1);
    assert MonthDisabledViaFrom(u, BoundsBag(u), LocalDate(u, 2021, 11, 1));
  }

  /** July 2021, whose 16th is enabled, is not a disabled month. */
  lemma MonthOfToEnabled(u: Utils)
    requires !u.useUtc
    ensures !IsDisabledMonth(u, Some(BoundsBag(u)), LocalDate(u, 2021, 6, 1))
  {
    var bag := BoundsBag(u);
    LocalDay(u, 2021, 6, 1);
    var july16 := ModeDate(u, 2021, 6, 16);
    ModeDateFields(u, 2021, 6, 16);
    MakeDayShift(2021, 6, 15, 1);
    DayNumbers2021();
    assert july16 == 18824 * DayMs - u.localOffset;
    assert bag.to.value.ms == 18823 * DayMs - u.localOffset;
    assert bag.from.value.ms == 18946 * DayMs - u.localOffset;
    assert !DisabledViaTo(u, bag, july16) && !DisabledViaFrom(u, bag, july16);
    assert !RulesMatch(u, bag, july16);
    assert !AllDaysDisabled(u, bag, 2021, 6);
  }

  /** A highlighted range 2016-10-04 .. 2016-10-08 starts on the 4th and ends on the 8th. */
  lemma HighlightedRangeEnds(off: int)
    ensures var u := Utils(false, off);
      var hl := EmptyBag.(ranges := Set([Range(Some(At(LocalDate(u, 2016, 9, 4))), Some(At(LocalDate(u, 2016, 9, 8))))]));
      UseHighlighted.IsHighlightStart(Some(hl), UseHighlighted.DefaultOptions(off), LocalDate(u, 2016, 9, 4)) == Success(true)
      && UseHighlighted.IsHighlightEnd(Some(hl), UseHighlighted.DefaultOptions(off), LocalDate(u, 2016, 9, 8)) == Success(true)
      && UseHighlighted.IsHighlightStart(Some(hl), UseHighlighted.DefaultOptions(off), LocalDate(u, 2016, 9, 8)) == Success(false)
  {
    var u := Utils(false, off);
    var hl := EmptyBag.(ranges := Set([Range(Some(At(LocalDate(u, 2016, 9, 4))), Some(At(LocalDate(u, 2016, 9, 8))))]));
    MakeDayShift(2016, 9, 4, 4);
    assert InRange(hl.ranges.value[0], LocalDate(u, 2016, 9, 4));
    assert InRange(hl.ranges.value[0], LocalDate(u, 2016, 9, 8));
    assert RulesMatch(u, hl, LocalDate(u, 2016, 9, 4));
    assert RulesMatch(u, hl, LocalDate(u, 2016, 9, 8));
  }
}
