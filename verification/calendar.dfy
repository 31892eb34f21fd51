/**
 * Proleptic Gregorian calendar arithmetic on day numbers.
 *
 * Day number 0 is 1970-01-01. Months are 0-based (0 = January), as in
 * the JavaScript Date API the picker is written against. Conversions use
 * March-based years inside 400-year eras, so that the leap day is the last
 * day of a year and every division has a constant, positive divisor
 * (Dafny's Euclidean `/` and `%` then coincide with floor division).
 */
module Calendar {

  /** Milliseconds in one civil day. */
  const DayMs: int := 86400000

  /** Days in a 400-year Gregorian era. */
  const EraDays: int := 146097

  /** Day number of 0000-03-01, the first day of era 0, counted from 1970-01-01. */
  const EpochShift: int := 719468

  /** The Gregorian leap-year rule. */
  predicate IsLeapYear(y: int) {
    (y % 4 == 0 && y % 100 != 0) || y % 400 == 0
  }

  /** Reference month length; `m` is 0-based. */
  function MonthLength(y: int, m: int): (n: int)
    requires 0 <= m < 12
    ensures 28 <= n <= 31
  {
    if m == 1 then (if IsLeapYear(y) then 29 else 28)
    else if m == 3 || m == 5 || m == 8 || m == 10 then 30
    else 31
  }

  /** A calendar date: year, 0-based month, 1-based day of month. */
  datatype Civil = Civil(year: int, month: int, day: int)

  predicate ValidCivil(c: Civil) {
    0 <= c.month < 12 && 1 <= c.day <= MonthLength(c.year, c.month)
  }

  /** Leap-year rule is periodic with period 400. */
  lemma LeapPeriodic(era: int, n: int)
    ensures IsLeapYear(era * 400 + n) == IsLeapYear(n)
  {
    ModShift(4, era * 100, n);
    ModShift(100, era * 4, n);
    ModShift(400, era, n);
  }

  /** Adding a multiple of a small positive constant leaves the remainder unchanged. */
  lemma ModShift(b: int, k: int, n: int)
    requires b == 4 || b == 100 || b == 400
    ensures (b * k + n) % b == n % b
  {
    var a := b * k + n;
    var q1, r1 := a / b, a % b;
    var q2, r2 := n / b, n % b;
    assert a == b * q1 + r1 && n == b * q2 + r2;
    assert b * (k + q2 - q1) == r1 - r2;
  }

  // ---------------------------------------------------------------------
  // Years inside an era (March-based)

  /** Days from the era's first March 1 to March 1 of year-of-era `yoe`. */
  function YearStart(yoe: int): int
    requires 0 <= yoe <= 400
  {
    365 * yoe + yoe / 4 - yoe / 100 + yoe / 400
  }

  /** Whether March-based year `yoe` ends with a leap day (its February is in year yoe + 1). */
  predicate EndsWithLeapDay(yoe: int) {
    IsLeapYear(yoe + 1)
  }

  lemma YearStartStep(yoe: int)
    requires 0 <= yoe < 400
    ensures YearStart(yoe + 1) - YearStart(yoe) == if EndsWithLeapDay(yoe) then 366 else 365
  {
    var n := yoe + 1;
    assert n / 4 - yoe / 4 == (if n % 4 == 0 then 1 else 0);
    assert n / 100 - yoe / 100 == (if n % 100 == 0 then 1 else 0);
    assert n / 400 - yoe / 400 == (if n % 400 == 0 then 1 else 0);
  }

  lemma YearStartMonotone(a: int, b: int)
    requires 0 <= a <= b <= 400
    ensures YearStart(a) + 365 * (b - a) <= YearStart(b)
    ensures a < b ==> YearStart(a) < YearStart(b)
  {
    assert b / 4 - a / 4 >= b / 100 - a / 100 by {
      assert 100 * (b / 100) <= b < 100 * (b / 100) + 100;
      assert 100 * (a / 100) <= a < 100 * (a / 100) + 100;
      assert 4 * (b / 4) <= b < 4 * (b / 4) + 4;
      assert 4 * (a / 4) <= a < 4 * (a / 4) + 4;
      assert b / 4 - a / 4 == 25 * (b / 100 - a / 100) + ((b % 100) / 4 - (a % 100) / 4);
    }
  }

  /** The year of era containing day-of-era `doe`, by century, 4-year cycle and year. */
  function YearOfEra(doe: int): (yoe: int)
    requires 0 <= doe < EraDays
    ensures 0 <= yoe < 400
    ensures YearStart(yoe) <= doe < YearStart(yoe + 1)
  {
    var c := if doe / 36524 < 3 then doe / 36524 else 3;
    var r1 := doe - 36524 * c;
    var q := r1 / 1461;
    var r2 := r1 - 1461 * q;
    var k := if r2 / 365 < 3 then r2 / 365 else 3;
    YearOfEraSplit(doe, c, r1, q, r2, k);
    100 * c + 4 * q + k
  }

  /** The bounds behind `YearOfEra`: the century/cycle/year split lands in the right year. */
  lemma YearOfEraSplit(doe: int, c: int, r1: int, q: int, r2: int, k: int)
    requires 0 <= doe < EraDays
    requires c == (if doe / 36524 < 3 then doe / 36524 else 3)
    requires r1 == doe - 36524 * c && q == r1 / 1461 && r2 == r1 - 1461 * q
    requires k == (if r2 / 365 < 3 then r2 / 365 else 3)
    ensures 0 <= 100 * c + 4 * q + k < 400
    ensures YearStart(100 * c + 4 * q + k) <= doe < YearStart(100 * c + 4 * q + k + 1)
  {
    assert 0 <= c <= 3;
    assert 0 <= r1 <= 36524 && (c < 3 ==> r1 < 36524);
    assert 0 <= q <= 24;
    assert 0 <= r2 < 1461;
    assert 0 <= k <= 3 && 365 * k <= r2 && (k < 3 ==> r2 < 365 * (k + 1));
    YearStartOfSplit(c, q, k);
    YearStartOfNextSplit(c, q, k);
  }

  lemma YearStartOfSplit(c: int, q: int, k: int)
    requires 0 <= c <= 3 && 0 <= q <= 24 && 0 <= k <= 3
    ensures YearStart(100 * c + 4 * q + k) == 36524 * c + 1461 * q + 365 * k
  {
    var yoe := 100 * c + 4 * q + k;
    assert yoe / 4 == 25 * c + q;
    assert yoe / 100 == c;
    assert yoe / 400 == 0;
  }

  lemma YearStartOfNextSplit(c: int, q: int, k: int)
    requires 0 <= c <= 3 && 0 <= q <= 24 && 0 <= k <= 3
    ensures YearStart(100 * c + 4 * q + k + 1)
            == if k < 3 then 36524 * c + 1461 * q + 365 * (k + 1)
               else if q < 24 then 36524 * c + 1461 * (q + 1)
               else 36524 * (c + 1) + (if c == 3 then 1 else 0)
  {
    var n := 100 * c + 4 * q + k + 1;
    if k < 3 {
      assert n / 4 == 25 * c + q && n / 100 == c && n / 400 == 0;
    } else if q < 24 {
      assert n == 100 * c + 4 * (q + 1);
      assert n / 4 == 25 * c + q + 1 && n / 100 == c && n / 400 == 0;
    } else {
      assert n == 100 * (c + 1);
      assert n / 4 == 25 * (c + 1) && n / 100 == c + 1;
      assert n / 400 == (if c == 3 then 1 else 0);
    }
  }

  lemma YearOfEraUnique(doe: int, yoe: int)
    requires 0 <= yoe < 400
    requires YearStart(yoe) <= doe < YearStart(yoe + 1)
    ensures doe < EraDays && YearOfEra(doe) == yoe
  {
    YearStartMonotone(yoe + 1, 400);
    assert YearStart(400) == EraDays;
    var r := YearOfEra(doe);
    if r < yoe {
      YearStartMonotone(r + 1, yoe);
    } else if yoe < r {
      YearStartMonotone(yoe + 1, r);
    }
  }

  // ---------------------------------------------------------------------
  // Months inside a March-based year

  /** First day-of-year of March-based month `mp` (0 = March, 11 = February). */
  function MarchStart(mp: int): int
    requires 0 <= mp <= 12
  {
    (153 * mp + 2) / 5
  }

  /** The March-based month containing day-of-year `doy`. */
  function MarchMonthOf(doy: int): (mp: int)
    requires 0 <= doy < 366
    ensures 0 <= mp < 12
    ensures MarchStart(mp) <= doy < MarchStart(mp + 1)
  {
    if doy < 31 then 0
    else if doy < 61 then 1
    else if doy < 92 then 2
    else if doy < 122 then 3
    else if doy < 153 then 4
    else if doy < 184 then 5
    else if doy < 214 then 6
    else if doy < 245 then 7
    else if doy < 275 then 8
    else if doy < 306 then 9
    else if doy < 337 then 10
    else 11
  }

  lemma MarchMonthUnique(doy: int, mp: int)
    requires 0 <= mp < 12 && 0 <= doy < 366
    requires MarchStart(mp) <= doy < MarchStart(mp + 1)
    ensures MarchMonthOf(doy) == mp
  {
  }

  /** The calendar month (0-based) of March-based month `mp`. */
  function CalendarMonth(mp: int): int
    requires 0 <= mp < 12
  {
    if mp < 10 then mp + 2 else mp - 10
  }

  /** The March-based month of calendar month `m` (0-based). */
  function MarchMonth(m: int): int
    requires 0 <= m < 12
  {
    if m >= 2 then m - 2 else m + 10
  }

  lemma MarchMonthLength(y: int, m: int)
    requires 0 <= m < 12 && m != 1
    ensures MarchStart(MarchMonth(m) + 1) - MarchStart(MarchMonth(m)) == MonthLength(y, m)
  {
  }

  // ---------------------------------------------------------------------
  // Conversions

  /**
   * Day number of calendar date (y, m, d). The day `d` is not range-checked:
   * the result is linear in `d`, which is how ECMAScript's MakeDay rolls
   * day overflow into following months.
   */
  function DaysFromCivil(y: int, m: int, d: int): int
    requires 0 <= m < 12
  {
    var y' := if m < 2 then y - 1 else y;
    var era := y' / 400;
    var yoe := y' % 400;
    era * EraDays + YearStart(yoe) + MarchStart(MarchMonth(m)) + d - 1 - EpochShift
  }

  /** The calendar date of day number `z`. */
  function CivilFromDays(z: int): Civil {
    var zz := z + EpochShift;
    CivilInEra(zz / EraDays, zz % EraDays)
  }

  /** The calendar date of day-of-era `doe` in 400-year era `era`. */
  function CivilInEra(era: int, doe: int): Civil
    requires 0 <= doe < EraDays
  {
    var yoe := YearOfEra(doe);
    YearStartStep(yoe);
    CivilInYear(era, yoe, doe - YearStart(yoe))
  }

  /** The calendar date of day-of-year `doy` in March-based year `yoe` of era `era`. */
  function CivilInYear(era: int, yoe: int, doy: int): Civil
    requires 0 <= doy < 366
  {
    var mp := MarchMonthOf(doy);
    Civil(era * 400 + yoe + (if mp >= 10 then 1 else 0), CalendarMonth(mp), doy - MarchStart(mp) + 1)
  }

  /** `DaysFromCivil` unfolded once the era and year of era of its input are known. */
  lemma DaysFromCivilParts(y: int, m: int, d: int, era: int, yoe: int)
    requires 0 <= m < 12 && 0 <= yoe < 400
    requires (if m < 2 then y - 1 else y) == era * 400 + yoe
    ensures DaysFromCivil(y, m, d) == era * EraDays + YearStart(yoe) + MarchStart(MarchMonth(m)) + d - 1 - EpochShift
  {
    var y' := if m < 2 then y - 1 else y;
    assert y' / 400 == era && y' % 400 == yoe;
  }

  /** `CivilFromDays` unfolded once the era and day of era of its input are known. */
  lemma CivilFromDaysParts(z: int, era: int, doe: int)
    requires 0 <= doe < EraDays && z + EpochShift == era * EraDays + doe
    ensures CivilFromDays(z) == CivilInEra(era, doe)
  {
    var zz := z + EpochShift;
    assert zz / EraDays == era && zz % EraDays == doe;
  }

  /** Every date inside an era is valid and converts back to its day of era. */
  lemma CivilInEraRoundTrip(era: int, doe: int)
    requires 0 <= doe < EraDays
    ensures ValidCivil(CivilInEra(era, doe))
    ensures DaysFromCivil(CivilInEra(era, doe).year, CivilInEra(era, doe).month, CivilInEra(era, doe).day)
            == era * EraDays + doe - EpochShift
  {
    var yoe := YearOfEra(doe);
    var doy := doe - YearStart(yoe);
    YearStartStep(yoe);
    var mp := MarchMonthOf(doy);
    var c := CivilInEra(era, doe);
    assert c == CivilInYear(era, yoe, doy);
    assert c == Civil(era * 400 + yoe + (if mp >= 10 then 1 else 0), CalendarMonth(mp), doy - MarchStart(mp) + 1);
    assert MarchMonth(c.month) == mp;
    if mp == 11 {
      LeapPeriodic(era, yoe + 1);
      assert c.year == era * 400 + (yoe + 1);
    } else {
      MarchMonthLength(c.year, c.month);
    }
    DaysFromCivilParts(c.year, c.month, c.day, era, yoe);
  }

  /** Every day number names a valid date, and converting back gives the same day number. */
  lemma {:induction false} DaysRoundTrip(z: int)
    ensures ValidCivil(CivilFromDays(z))
    ensures DaysFromCivil(CivilFromDays(z).year, CivilFromDays(z).month, CivilFromDays(z).day) == z
  {
    var zz := z + EpochShift;
    CivilFromDaysParts(z, zz / EraDays, zz % EraDays);
    CivilInEraRoundTrip(zz / EraDays, zz % EraDays);
  }

  /** The day of year of a valid date lies inside its March-based year. */
  lemma DayOfYearInRange(c: Civil, era: int, yoe: int)
    requires ValidCivil(c) && 0 <= yoe < 400
    requires (if c.month < 2 then c.year - 1 else c.year) == era * 400 + yoe
    ensures 0 <= MarchStart(MarchMonth(c.month)) + c.day - 1 < YearStart(yoe + 1) - YearStart(yoe)
    ensures MarchStart(MarchMonth(c.month)) <= MarchStart(MarchMonth(c.month)) + c.day - 1 < MarchStart(MarchMonth(c.month) + 1)
  {
    YearStartStep(yoe);
    if c.month == 1 {
      LeapPeriodic(era, yoe + 1);
      assert c.year == era * 400 + (yoe + 1);
    } else {
      MarchMonthLength(c.year, c.month);
    }
  }

  /** `CivilInEra` on a day of era given as year of era plus day of year. */
  lemma CivilInEraOf(era: int, yoe: int, doy: int, mp: int)
    requires 0 <= yoe < 400 && 0 <= doy < YearStart(yoe + 1) - YearStart(yoe)
    requires 0 <= mp < 12 && MarchStart(mp) <= doy < MarchStart(mp + 1)
    ensures YearStart(yoe) + doy < EraDays
    ensures CivilInEra(era, YearStart(yoe) + doy)
            == Civil(era * 400 + yoe + (if mp >= 10 then 1 else 0), CalendarMonth(mp), doy - MarchStart(mp) + 1)
  {
    var doe := YearStart(yoe) + doy;
    YearOfEraUnique(doe, yoe);
    YearStartStep(yoe);
    assert CivilInEra(era, doe) == CivilInYear(era, yoe, doy);
    MarchMonthUnique(doy, mp);
  }

  /** Every valid date survives the trip through its day number. */
  lemma {:induction false} CivilRoundTrip(c: Civil)
    requires ValidCivil(c)
    ensures CivilFromDays(DaysFromCivil(c.year, c.month, c.day)) == c
  {
    var y' := if c.month < 2 then c.year - 1 else c.year;
    var era := y' / 400;
    var yoe := y' % 400;
    var mp := MarchMonth(c.month);
    var doy := MarchStart(mp) + c.day - 1;
    DayOfYearInRange(c, era, yoe);
    CivilInEraOf(era, yoe, doy, mp);
    DaysFromCivilParts(c.year, c.month, c.day, era, yoe);
    var z := DaysFromCivil(c.year, c.month, c.day);
    var doe := YearStart(yoe) + doy;
    assert z + EpochShift == era * EraDays + doe;
    CivilFromDaysParts(z, era, doe);
    assert y' == era * 400 + yoe;
    var c' := Civil(era * 400 + yoe + (if mp >= 10 then 1 else 0), CalendarMonth(mp), doy - MarchStart(mp) + 1);
    assert c'.year == c.year && c'.month == c.month && c'.day == c.day;
    assert CivilFromDays(z) == c';
  }

  // ---------------------------------------------------------------------
  // Order

  /** Months counted from month 0 of year 0: the order of (year, month) pairs. */
  function MonthKey(c: Civil): int {
    12 * c.year + c.month
  }

  lemma MarchStartMonotone(a: int, b: int)
    requires 0 <= a <= b <= 12
    ensures MarchStart(a) <= MarchStart(b)
  {
    assert 153 * a + 2 <= 153 * b + 2;
  }

  lemma YearOfEraMonotone(d1: int, d2: int)
    requires 0 <= d1 <= d2 < EraDays
    ensures YearOfEra(d1) <= YearOfEra(d2)
  {
    var y1, y2 := YearOfEra(d1), YearOfEra(d2);
    if y1 > y2 {
      YearStartMonotone(y2 + 1, y1);
    }
  }

  lemma MarchMonthOfMonotone(d1: int, d2: int)
    requires 0 <= d1 <= d2 < 366
    ensures MarchMonthOf(d1) <= MarchMonthOf(d2)
  {
    var m1, m2 := MarchMonthOf(d1), MarchMonthOf(d2);
    if m1 > m2 {
      MarchStartMonotone(m2 + 1, m1);
    }
  }

  /** Months since the era's first March of the March-based month holding day-of-era `doe`. */
  function EraMonthIndex(doe: int): (k: int)
    requires 0 <= doe < EraDays
    ensures 0 <= k < 4800
  {
    var yoe := YearOfEra(doe);
    YearStartStep(yoe);
    12 * yoe + MarchMonthOf(doe - YearStart(yoe))
  }

  /** The month key of a day of era, read off its March-based year and month. */
  lemma CivilInEraKey(era: int, doe: int)
    requires 0 <= doe < EraDays
    ensures MonthKey(CivilInEra(era, doe)) == 4800 * era + EraMonthIndex(doe) + 2
  {
    YearStartStep(YearOfEra(doe));
  }

  /** Inside one era, later days never fall in earlier months. */
  lemma EraMonthIndexMonotone(d1: int, d2: int)
    requires 0 <= d1 <= d2 < EraDays
    ensures EraMonthIndex(d1) <= EraMonthIndex(d2)
  {
    var y1, y2 := YearOfEra(d1), YearOfEra(d2);
    YearOfEraMonotone(d1, d2);
    if y1 == y2 {
      var s := YearStart(y1);
      assert d2 - s < 366 by {
        YearStartStep(y1);
      }
      MarchMonthOfMonotone(d1 - s, d2 - s);
    }
  }

  /** Later day numbers never fall in earlier months. */
  lemma MonthKeyMonotone(z1: int, z2: int)
    requires z1 <= z2
    ensures MonthKey(CivilFromDays(z1)) <= MonthKey(CivilFromDays(z2))
  {
    var zz1, zz2 := z1 + EpochShift, z2 + EpochShift;
    var e1, e2 := zz1 / EraDays, zz2 / EraDays;
    var d1, d2 := zz1 % EraDays, zz2 % EraDays;
    CivilFromDaysParts(z1, e1, d1);
    CivilFromDaysParts(z2, e2, d2);
    CivilInEraKey(e1, d1);
    CivilInEraKey(e2, d2);
    if e1 == e2 {
      EraMonthIndexMonotone(d1, d2);
    } else {
      assert e1 < e2;
    }
  }

  /** A day in an earlier month is an earlier day. */
  lemma DaysOrderedByMonth(z1: int, z2: int)
    requires MonthKey(CivilFromDays(z1)) < MonthKey(CivilFromDays(z2))
    ensures z1 < z2
  {
    if z1 >= z2 {
      MonthKeyMonotone(z2, z1);
    }
  }

  /** Day of week of day number `z`, 0 = Sunday (1970-01-01 was a Thursday). */
  function Weekday(z: int): (w: int)
    ensures 0 <= w < 7
  {
    (z + 4) % 7
  }

  /** The weekday advances by one each day, from Saturday (6) back to Sunday (0), and repeats weekly. */
  lemma WeekdayNext(z: int)
    ensures Weekday(z + 1) == (Weekday(z) + 1) % 7
    ensures Weekday(z + 7) == Weekday(z)
  {
  }

  /** Day 0 is 1 January 1970, a Thursday; 2 October 2016 was a Sunday. */
  lemma WeekdayAnchors()
    ensures DaysFromCivil(1970, 0, 1) == 0 && Weekday(DaysFromCivil(1970, 0, 1)) == 4
    ensures Weekday(DaysFromCivil(2016, 9, 2)) == 0
  {
    assert 1969 / 400 == 4 && 1969 % 400 == 369;
    assert YearStart(369) == 134774;
    assert MarchStart(10) == 306;
    assert 2016 / 400 == 5 && 2016 % 400 == 16;
    assert YearStart(16) == 5844;
    assert MarchStart(7) == 214;
  }
}
