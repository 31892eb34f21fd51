/**
 * The translation value object: a language name with twelve month names,
 * twelve abbreviated month names and seven weekday names (Sunday first),
 * plus display flags. Construction and every setter check the array
 * lengths, so a constructed translation always satisfies `Valid`.
 */
module Language {
  import opened Wrappers
  import opened JsText

  datatype Translation = Translation(
    language: string,
    months: seq<string>,
    monthsAbbr: seq<string>,
    days: seq<string>,
    rtl: bool,
    ymd: bool,
    yearSuffix: string)

  /** The language argument: a string, or a value of some other type. */
  datatype LanguageArg = LanguageName(name: string) | NotAString

  predicate Valid(tr: Translation) {
    |tr.months| == 12 && |tr.monthsAbbr| == 12 && |tr.days| == 7
  }

  /** The state of a translation before its constructor has run any setter. */
  const Blank: Translation := Translation("", [], [], [], false, false, "")

  // ---------------------------------------------------------------------
  // Setters

  function SetLanguage(tr: Translation, language: LanguageArg): (r: Result<Translation, JsError>)
    ensures language.NotAString? <==> r == Failure(TypeError("Language must be a string"))
    ensures language.LanguageName? ==> r == Success(tr.(language := language.name))
  {
    match language
    case NotAString => Failure(TypeError("Language must be a string"))
    case LanguageName(name) => Success(tr.(language := name))
  }

  function SetMonths(tr: Translation, months: seq<string>): (r: Result<Translation, JsError>)
    ensures r.Success? <==> |months| == 12
    ensures r.Success? ==> r.value == tr.(months := months)
    ensures r.Failure? ==> r.error == RangeError("There must be 12 months for " + tr.language + " language")
  {
    if |months| != 12 then Failure(RangeError("There must be 12 months for " + tr.language + " language"))
    else Success(tr.(months := months))
  }

  function SetMonthsAbbr(tr: Translation, monthsAbbr: seq<string>): (r: Result<Translation, JsError>)
    ensures r.Success? <==> |monthsAbbr| == 12
    ensures r.Success? ==> r.value == tr.(monthsAbbr := monthsAbbr)
    ensures r.Failure? ==> r.error == RangeError("There must be 12 abbreviated months for " + tr.language + " language")
  {
    if |monthsAbbr| != 12 then Failure(RangeError("There must be 12 abbreviated months for " + tr.language + " language"))
    else Success(tr.(monthsAbbr := monthsAbbr))
  }

  function SetDays(tr: Translation, days: seq<string>): (r: Result<Translation, JsError>)
    ensures r.Success? <==> |days| == 7
    ensures r.Success? ==> r.value == tr.(days := days)
    ensures r.Failure? ==> r.error == RangeError("There must be 7 days for " + tr.language + " language")
  {
    if |days| != 7 then Failure(RangeError("There must be 7 days for " + tr.language + " language"))
    else Success(tr.(days := days))
  }

  /** Every setter keeps a valid translation valid. */
  lemma SettersPreserveValid(tr: Translation, language: LanguageArg, months: seq<string>, abbr: seq<string>, days: seq<string>)
    requires Valid(tr)
    ensures SetLanguage(tr, language).Success? ==> Valid(SetLanguage(tr, language).value)
    ensures SetMonths(tr, months).Success? ==> Valid(SetMonths(tr, months).value)
    ensures SetMonthsAbbr(tr, abbr).Success? ==> Valid(SetMonthsAbbr(tr, abbr).value)
    ensures SetDays(tr, days).Success? ==> Valid(SetDays(tr, days).value)
  {
  }

  // ---------------------------------------------------------------------
  // Constructor

  /**
   * `new Language(language, months, monthsAbbr, days, rtl?, ymd?, yearSuffix?)`:
   * the setters run in that order, so the first failing check decides the
   * error; omitted flags default to false, false and the empty suffix.
   */
  function MakeLanguage(language: LanguageArg, months: seq<string>, monthsAbbr: seq<string>, days: seq<string>,
                        rtl: Option<bool>, ymd: Option<bool>, yearSuffix: Option<string>): (r: Result<Translation, JsError>)
    ensures r.Success? <==> language.LanguageName? && |months| == 12 && |monthsAbbr| == 12 && |days| == 7
    ensures r.Success? ==> Valid(r.value)
    ensures r.Success? ==> r.value == Translation(language.name, months, monthsAbbr, days,
                                                  rtl.GetOr(false), ymd.GetOr(false), yearSuffix.GetOr(""))
    ensures language.NotAString? ==> r == Failure(TypeError("Language must be a string"))
    ensures language.LanguageName? && |months| != 12 ==>
      r == Failure(RangeError("There must be 12 months for " + language.name + " language"))
    ensures language.LanguageName? && |months| == 12 && |monthsAbbr| != 12 ==>
      r == Failure(RangeError("There must be 12 abbreviated months for " + language.name + " language"))
    ensures language.LanguageName? && |months| == 12 && |monthsAbbr| == 12 && |days| != 7 ==>
      r == Failure(RangeError("There must be 7 days for " + language.name + " language"))
  {
    var t1 :- SetLanguage(Blank, language);
    var t2 :- SetMonths(t1, months);
    var t3 :- SetMonthsAbbr(t2, monthsAbbr);
    var t4 :- SetDays(t3, days);
    Success(t4.(rtl := rtl.GetOr(false), ymd := ymd.GetOr(false), yearSuffix := yearSuffix.GetOr("")))
  }

  // ---------------------------------------------------------------------
  // Weekday rotation

  /** How far `slice(k)` moves the start of an `n`-element array. */
  function Shift(n: nat, k: int): (s: nat)
    ensures s <= n
  {
    if k < 0 then (if n + k < 0 then 0 else n + k) else if k > n then n else k
  }

  /** The weekday names starting from `firstDayOfWeek`, the earlier names moved to the end. */
  function GetDaysStartingOn(tr: Translation, firstDayOfWeek: int): (r: seq<string>)
    ensures |r| == |tr.days|
    ensures var s := Shift(|tr.days|, firstDayOfWeek); r == tr.days[s..] + tr.days[..s]
  {
    var firstDays := Slice(tr.days, firstDayOfWeek, |tr.days|);
    var lastDays := Slice(tr.days, 0, firstDayOfWeek);
    RotationParts(tr.days, firstDayOfWeek);
    firstDays + lastDays
  }

  lemma RotationParts(xs: seq<string>, k: int)
    ensures var s := Shift(|xs|, k);
      Slice(xs, k, |xs|) == xs[s..] && Slice(xs, 0, k) == xs[..s]
  {
  }

  /** For a valid translation and a weekday number 0..7 the result is the rotation by that number. */
  lemma DaysStartingOnRotates(tr: Translation, k: int)
    requires Valid(tr) && 0 <= k <= 7
    ensures |GetDaysStartingOn(tr, k)| == 7
    ensures forall i :: 0 <= i < 7 ==> GetDaysStartingOn(tr, k)[i] == tr.days[(i + k) % 7]
    ensures multiset(GetDaysStartingOn(tr, k)) == multiset(tr.days)
  {
    var r := GetDaysStartingOn(tr, k);
    assert Shift(7, k) == k;
    assert r == tr.days[k..] + tr.days[..k];
    forall i | 0 <= i < 7 ensures r[i] == tr.days[(i + k) % 7] {
      RotationIndex(tr.days, k, i);
    }
    assert multiset(r) == multiset(tr.days) by {
      assert tr.days == tr.days[..k] + tr.days[k..];
    }
  }

  lemma RotationIndex(xs: seq<string>, k: nat, i: int)
    requires |xs| == 7 && k <= 7 && 0 <= i < 7
    ensures (xs[k..] + xs[..k])[i] == xs[(i + k) % 7]
  {
    if i < 7 - k {
      assert (i + k) % 7 == i + k;
    } else {
      assert (i + k) % 7 == i + k - 7;
    }
  }


  // ---------------------------------------------------------------------
  // Month name to month number

  /** A month number as two characters when below 10: `0${v}`, otherwise `${v}`. */
  function TwoDigits(v: int): string {
    if v < 10 then "0" + IntToString(v) else IntToString(v)
  }

  function GetMonthByAbbrName(tr: Translation, name: string): (r: string)
    ensures name !in tr.monthsAbbr ==> r == "00"
    ensures name in tr.monthsAbbr ==> r == TwoDigits(FindIndex(tr.monthsAbbr, name) + 1)
  {
    var monthValue := FindIndex(tr.monthsAbbr, name) + 1;
    TwoDigits(monthValue)
  }

  function GetMonthByName(tr: Translation, name: string): (r: string)
    ensures name !in tr.months ==> r == "00"
    ensures name in tr.months ==> r == TwoDigits(FindIndex(tr.months, name) + 1)
  {
    var monthValue := FindIndex(tr.months, name) + 1;
    TwoDigits(monthValue)
  }

  /** Two characters whose `parseInt` gives the month number back. */
  lemma TwoDigitsRoundTrip(v: int)
    requires 0 <= v <= 99
    ensures |TwoDigits(v)| == 2
    ensures ParseInt(TwoDigits(v)) == Some(v)
  {
    if v < 10 {
      var digits := NatToString(v);
      var t := TwoDigits(v);
      assert t == "0" + digits;
      DigitsValueOfNat(v);
      LeadingZero(digits);
      assert TrimStart(t) == t;
      ParseUnsignedDecimal(t);
    } else {
      ParseIntOfIntToString(v);
      assert IntToString(v) == NatToString(v / 10) + [DigitChar(v % 10)];
    }
  }

  /**
   * With distinct month names, the name of month `m` (0-based) maps back to
   * the two-character text of `m + 1`, the same for abbreviations.
   */
  lemma MonthNameRoundTrip(tr: Translation, m: int)
    requires Valid(tr) && 0 <= m < 12
    requires forall i, j :: 0 <= i < j < 12 ==> tr.months[i] != tr.months[j]
    requires forall i, j :: 0 <= i < j < 12 ==> tr.monthsAbbr[i] != tr.monthsAbbr[j]
    ensures GetMonthByName(tr, tr.months[m]) == TwoDigits(m + 1)
    ensures GetMonthByAbbrName(tr, tr.monthsAbbr[m]) == TwoDigits(m + 1)
    ensures ParseInt(GetMonthByName(tr, tr.months[m])) == Some(m + 1)
  {
    FirstIndexOfDistinct(tr.months, m);
    FirstIndexOfDistinct(tr.monthsAbbr, m);
    TwoDigitsRoundTrip(m + 1);
  }

  lemma FirstIndexOfDistinct(xs: seq<string>, m: int)
    requires 0 <= m < |xs|
    requires forall i, j :: 0 <= i < j < |xs| ==> xs[i] != xs[j]
    ensures FindIndex(xs, xs[m]) == m
  {
    assert xs[m] in xs;
  }
}
