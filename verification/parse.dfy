/**
 * Parsing typed text back into a date.
 *
 * `getParsableDate` rebuilds a `year-month-day` string from the typed text
 * and the display format: both are cut at the format's first separator,
 * each format segment names the field its partner segment fills, and the
 * time suffix is appended. `parseDate` dispatches between that heuristic,
 * which ends in the engine's `Date.parse` (a parameter here), and a
 * user-supplied parser.
 */
module DateParse {
  import opened Wrappers
  import opened Calendar
  import opened JsText
  import opened DateUtils
  import opened Language
  import opened DateFormat

  // ---------------------------------------------------------------------
  // The splitter

  /** A character of the pattern `-|\/|\s|\.`. */
  predicate IsSeparator(c: char) {
    c == '-' || c == '/' || c == '.' || IsJsWhitespace(c)
  }

  /** The first separator in the format, or `None` when the match is null. */
  function Splitter(formatStr: string): (r: Option<char>)
    ensures r.None? <==> forall i :: 0 <= i < |formatStr| ==> !IsSeparator(formatStr[i])
    ensures r.Some? ==> exists i :: 0 <= i < |formatStr| && formatStr[i] == r.value && IsSeparator(r.value)
                          && forall j :: 0 <= j < i ==> !IsSeparator(formatStr[j])
  {
    if |formatStr| == 0 then None
    else if IsSeparator(formatStr[0]) then Some(formatStr[0])
    else
      var r := Splitter(formatStr[1..]);
      assert r.Some? ==> exists i :: 0 <= i < |formatStr[1..]| && formatStr[1..][i] == r.value && IsSeparator(r.value)
                          && forall j :: 0 <= j < i ==> !IsSeparator(formatStr[1..][j]);
      if r.Some? then
        var i :| 0 <= i < |formatStr[1..]| && formatStr[1..][i] == r.value && IsSeparator(r.value)
                 && forall j :: 0 <= j < i ==> !IsSeparator(formatStr[1..][j]);
        assert formatStr[i + 1] == r.value;
        assert forall j :: 0 <= j < i + 1 ==> !IsSeparator(formatStr[j]) by {
          forall j | 0 <= j < i + 1 ensures !IsSeparator(formatStr[j]) {
            if j > 0 { assert formatStr[j] == formatStr[1..][j - 1]; }
          }
        }
        r
      else
        assert forall i :: 0 <= i < |formatStr| ==> !IsSeparator(formatStr[i]) by {
          forall i | 0 <= i < |formatStr| ensures !IsSeparator(formatStr[i]) {
            if i > 0 { assert formatStr[i] == formatStr[1..][i - 1]; }
          }
        }
        r
  }

  /** `splitter![0]` on a null match: reading a property of null. */
  const NullSplitter: JsError := TypeError("Cannot read properties of null (reading '0')")

  /** `ds[i].replace(...)` past the end of the typed segments. */
  const MissingSegment: JsError := TypeError("Cannot read properties of undefined (reading 'replace')")

  // ---------------------------------------------------------------------
  // Segments

  /** What a format segment asks for, matched in the source's priority order. */
  datatype Segment = YearSeg | MonthNameSeg | MonthAbbrSeg | MonthNumSeg | DaySeg | DayOrdinalSeg | OtherSeg

  function Classify(seg: string): Segment {
    if Contains(seg, "yyyy", true) then YearSeg
    else if Contains(seg, "mmmm", true) then MonthNameSeg
    else if Contains(seg, "mmm", true) then MonthAbbrSeg
    else if Contains(seg, "mm", true) then MonthNumSeg
    else if Contains(seg, "m", true) then MonthNumSeg
    else if Contains(seg, "dd", true) then DaySeg
    else if Contains(seg, "d", true) then DayOrdinalSeg
    else OtherSeg
  }

  /** The text with every `st`, `rd`, `nd` and `th` removed, scanning left to right. */
  function StripOrdinal(s: string): (r: string)
    ensures |r| <= |s|
    decreases |s|
  {
    if |s| >= 2 && s[..2] in {"st", "rd", "nd", "th"} then StripOrdinal(s[2..])
    else if |s| == 0 then ""
    else [s[0]] + StripOrdinal(s[1..])
  }

  /** The day text of a `d` segment: suffix removed, a leading `0` added below 10. */
  function OrdinalDay(text: string): string {
    var tmp := StripOrdinal(text);
    match ParseInt(tmp)
    case Some(v) => if v < 10 then "0" + tmp else tmp
    case None => tmp
  }

  /** The three fields being rebuilt; `None` is an undefined entry, which `join` writes as nothing. */
  datatype Ymd = Ymd(year: Option<string>, month: Option<string>, day: Option<string>)

  /** One pass of the loop body: segment `kind` with typed segment `typed` (None past the end). */
  function Assign(ymd: Ymd, kind: Segment, typed: Option<string>, tr: Translation): Result<Ymd, JsError> {
    match kind
    case YearSeg => Success(ymd.(year := typed))
    case MonthNameSeg => Success(ymd.(month := Some(if typed.Some? then GetMonthByName(tr, typed.value) else "00")))
    case MonthAbbrSeg => Success(ymd.(month := Some(if typed.Some? then GetMonthByAbbrName(tr, typed.value) else "00")))
    case MonthNumSeg => Success(ymd.(month := typed))
    case DaySeg => Success(ymd.(day := typed))
    case DayOrdinalSeg => if typed.None? then Failure(MissingSegment) else Success(ymd.(day := Some(OrdinalDay(typed.value))))
    case OtherSeg => Success(ymd)
  }

  function Entry(xs: seq<string>, i: int): Option<string> {
    if 0 <= i < |xs| then Some(xs[i]) else None
  }

  /** The loop over the format segments from index `i` on. */
  function AssignFrom(df: seq<string>, ds: seq<string>, tr: Translation, i: nat, ymd: Ymd): Result<Ymd, JsError>
    requires i <= |df|
    decreases |df| - i
  {
    if i == |df| then Success(ymd)
    else
      var next :- Assign(ymd, Classify(df[i]), Entry(ds, i), tr);
      AssignFrom(df, ds, tr, i + 1, next)
  }

  function JoinField(f: Option<string>): string {
    f.GetOr("")
  }

  function JoinYmd(ymd: Ymd): string {
    JoinField(ymd.year) + "-" + JoinField(ymd.month) + "-" + JoinField(ymd.day)
  }

  /** `getParsableDate`: the rebuilt `year-month-day` text followed by `time`. */
  function GetParsableDate(dateStr: string, formatStr: string, tr: Translation, currentYear: int, time: string): Result<string, JsError> {
    match Splitter(formatStr)
    case None => Failure(NullSplitter)
    case Some(c) =>
      var df := Split(formatStr, c);
      var ds := Split(dateStr, c);
      var ymd :- AssignFrom(df, ds, tr, 0, Ymd(Some(IntToString(currentYear)), Some("01"), Some("01")));
      Success(JoinYmd(ymd) + time)
  }

  // ---------------------------------------------------------------------
  // A reference reading: each field comes from the LAST segment that names it

  predicate NamesYear(k: Segment) { k == YearSeg }
  predicate NamesMonth(k: Segment) { k == MonthNameSeg || k == MonthAbbrSeg || k == MonthNumSeg }
  predicate NamesDay(k: Segment) { k == DaySeg || k == DayOrdinalSeg }

  /** The value segment `i` writes into its field (for a `d` segment, assuming it exists). */
  function Written(df: seq<string>, ds: seq<string>, tr: Translation, i: nat): Option<string>
    requires i < |df|
  {
    var typed := Entry(ds, i);
    match Classify(df[i])
    case MonthNameSeg => Some(if typed.Some? then GetMonthByName(tr, typed.value) else "00")
    case MonthAbbrSeg => Some(if typed.Some? then GetMonthByAbbrName(tr, typed.value) else "00")
    case DayOrdinalSeg => if typed.Some? then Some(OrdinalDay(typed.value)) else None
    case _ => typed
  }

  /** The last segment index in `[i, |df|)` whose kind satisfies `p`, if any. */
  function LastNaming(df: seq<string>, i: nat, p: Segment -> bool): (r: Option<nat>)
    requires i <= |df|
    ensures r.Some? ==> i <= r.value < |df| && p(Classify(df[r.value]))
    ensures r.Some? ==> forall j :: r.value < j < |df| ==> !p(Classify(df[j]))
    ensures r.None? ==> forall j :: i <= j < |df| ==> !p(Classify(df[j]))
    decreases |df| - i
  {
    if i == |df| then None
    else
      var rest := LastNaming(df, i + 1, p);
      if rest.Some? then rest else if p(Classify(df[i])) then Some(i) else None
  }

  /** The field after the loop: written by the last segment naming it, or left as it was. */
  function FieldAfter(df: seq<string>, ds: seq<string>, tr: Translation, i: nat, p: Segment -> bool, initial: Option<string>): Option<string>
    requires i <= |df|
  {
    match LastNaming(df, i, p)
    case Some(j) => Written(df, ds, tr, j)
    case None => initial
  }

  /** The loop fails exactly when some `d` segment has no typed partner. */
  predicate MissingOrdinal(df: seq<string>, ds: seq<string>, i: nat)
    requires i <= |df|
  {
    exists j :: i <= j < |df| && Classify(df[j]) == DayOrdinalSeg && j >= |ds|
  }

  /** Peeling segment `i` off the reference reading. */
  lemma FieldAfterStep(df: seq<string>, ds: seq<string>, tr: Translation, i: nat, p: Segment -> bool, initial: Option<string>)
    requires i < |df|
    ensures FieldAfter(df, ds, tr, i, p, initial)
            == FieldAfter(df, ds, tr, i + 1, p, if p(Classify(df[i])) then Written(df, ds, tr, i) else initial)
  {
  }

  /** A successful loop step writes exactly what `Written` says into the fields its segment names. */
  lemma AssignWrites(df: seq<string>, ds: seq<string>, tr: Translation, i: nat, ymd: Ymd)
    requires i < |df|
    ensures Assign(ymd, Classify(df[i]), Entry(ds, i), tr).Failure? <==> Classify(df[i]) == DayOrdinalSeg && i >= |ds|
    ensures Assign(ymd, Classify(df[i]), Entry(ds, i), tr).Failure? ==> Assign(ymd, Classify(df[i]), Entry(ds, i), tr).error == MissingSegment
    ensures Assign(ymd, Classify(df[i]), Entry(ds, i), tr).Success? ==>
      var k := Classify(df[i]);
      Assign(ymd, k, Entry(ds, i), tr).value == Ymd(
        if NamesYear(k) then Written(df, ds, tr, i) else ymd.year,
        if NamesMonth(k) then Written(df, ds, tr, i) else ymd.month,
        if NamesDay(k) then Written(df, ds, tr, i) else ymd.day)
  {
  }

  /** The loop agrees with the reference reading, on success and on failure. */
  lemma {:induction false} AssignFromFields(df: seq<string>, ds: seq<string>, tr: Translation, i: nat, ymd: Ymd)
    requires i <= |df|
    ensures AssignFrom(df, ds, tr, i, ymd).Failure? <==> MissingOrdinal(df, ds, i)
    ensures AssignFrom(df, ds, tr, i, ymd).Failure? ==> AssignFrom(df, ds, tr, i, ymd).error == MissingSegment
    ensures AssignFrom(df, ds, tr, i, ymd).Success? ==> AssignFrom(df, ds, tr, i, ymd).value == Ymd(
      FieldAfter(df, ds, tr, i, NamesYear, ymd.year),
      FieldAfter(df, ds, tr, i, NamesMonth, ymd.month),
      FieldAfter(df, ds, tr, i, NamesDay, ymd.day))
    decreases |df| - i
  {
    if i < |df| {
      var step := Assign(ymd, Classify(df[i]), Entry(ds, i), tr);
      AssignWrites(df, ds, tr, i, ymd);
      assert AssignFrom(df, ds, tr, i, ymd) == (if step.Failure? then Failure(step.error) else AssignFrom(df, ds, tr, i + 1, step.value));
      if step.Success? {
        AssignFromFields(df, ds, tr, i + 1, step.value);
        FieldAfterStep(df, ds, tr, i, NamesYear, ymd.year);
        FieldAfterStep(df, ds, tr, i, NamesMonth, ymd.month);
        FieldAfterStep(df, ds, tr, i, NamesDay, ymd.day);
        assert MissingOrdinal(df, ds, i) <==> MissingOrdinal(df, ds, i + 1) by {
          if MissingOrdinal(df, ds, i) {
            var j :| i <= j < |df| && Classify(df[j]) == DayOrdinalSeg && j >= |ds|;
            assert j != i;
          }
        }
      } else {
        assert MissingOrdinal(df, ds, i);
      }
    } else {
      assert !MissingOrdinal(df, ds, i);
    }
  }

  /**
   * `getParsableDate` fails exactly when the format has no separator or a
   * `d` segment has no typed partner; otherwise each field is the one written
   * by the last segment naming it, the defaults being the current year,
   * `01` and `01`.
   */
  lemma ParsableDateSpec(dateStr: string, formatStr: string, tr: Translation, currentYear: int, time: string)
    ensures Splitter(formatStr).None? ==> GetParsableDate(dateStr, formatStr, tr, currentYear, time) == Failure(NullSplitter)
    ensures Splitter(formatStr).Some? ==>
      var c := Splitter(formatStr).value;
      var df := Split(formatStr, c);
      var ds := Split(dateStr, c);
      var r := GetParsableDate(dateStr, formatStr, tr, currentYear, time);
      (r.Failure? <==> MissingOrdinal(df, ds, 0))
      && (r.Failure? ==> r.error == MissingSegment)
      && (r.Success? ==> r.value == JoinField(FieldAfter(df, ds, tr, 0, NamesYear, Some(IntToString(currentYear)))) + "-"
                                  + JoinField(FieldAfter(df, ds, tr, 0, NamesMonth, Some("01"))) + "-"
                                  + JoinField(FieldAfter(df, ds, tr, 0, NamesDay, Some("01"))) + time)
  {
    if Splitter(formatStr).Some? {
      var c := Splitter(formatStr).value;
      AssignFromFields(Split(formatStr, c), Split(dateStr, c), tr, 0, Ymd(Some(IntToString(currentYear)), Some("01"), Some("01")));
    }
  }

  // ---------------------------------------------------------------------
  // Segment classification on the picker's usual formats

  lemma OccursContains(s: string, p: string, i: nat, ignoreCase: bool)
    requires i <= |s| && OccursAt(s, p, i, ignoreCase)
    ensures Contains(s, p, ignoreCase)
  {
  }

  /** A pattern longer than the text never occurs in it. */
  lemma LongerAbsent(s: string, p: string, ignoreCase: bool)
    requires |p| > |s|
    ensures !Contains(s, p, ignoreCase)
  {
  }

  /** A pattern whose first letter, folded, appears nowhere in the text never occurs in it. */
  lemma FirstLetterAbsent(s: string, p: string)
    requires |p| >= 1 && forall i :: 0 <= i < |s| ==> AsciiLower(s[i]) != AsciiLower(p[0])
    ensures !Contains(s, p, true)
  {
    forall i | 0 <= i <= |s| ensures !OccursAt(s, p, i, true) {
      if i + |p| <= |s| {
        assert AsciiLower(s[i + 0]) != AsciiLower(p[0]);
      }
    }
  }

  lemma ClassifyDd()
    ensures Classify("dd") == DaySeg
  {
    LongerAbsent("dd", "yyyy", true);
    LongerAbsent("dd", "mmmm", true);
    LongerAbsent("dd", "mmm", true);
    FirstLetterAbsent("dd", "mm");
    FirstLetterAbsent("dd", "m");
    OccursContains("dd", "dd", 0, true);
  }

  lemma ClassifyMMM()
    ensures Classify("MMM") == MonthAbbrSeg
  {
    LongerAbsent("MMM", "yyyy", true);
    LongerAbsent("MMM", "mmmm", true);
    assert AsciiLower('M') == 'm';
    OccursContains("MMM", "mmm", 0, true);
  }

  lemma ClassifyMM()
    ensures Classify("MM") == MonthNumSeg
  {
    LongerAbsent("MM", "yyyy", true);
    LongerAbsent("MM", "mmmm", true);
    LongerAbsent("MM", "mmm", true);
    assert AsciiLower('M') == 'm';
    OccursContains("MM", "mm", 0, true);
  }

  lemma ClassifyYyyy()
    ensures Classify("yyyy") == YearSeg
  {
    OccursContains("yyyy", "yyyy", 0, true);
  }

  /** A two-letter year segment names nothing, so the year keeps its default. */
  lemma ClassifyYy()
    ensures Classify("yy") == OtherSeg
  {
    LongerAbsent("yy", "yyyy", true);
    FirstLetterAbsent("yy", "mmmm");
    FirstLetterAbsent("yy", "mmm");
    FirstLetterAbsent("yy", "mm");
    FirstLetterAbsent("yy", "m");
    FirstLetterAbsent("yy", "dd");
    FirstLetterAbsent("yy", "d");
  }

  // ---------------------------------------------------------------------
  // Ordinal days

  lemma StripDigits(s: string)
    requires forall i :: 0 <= i < |s| ==> IsDecimalDigit(s[i])
    ensures StripOrdinal(s) == s
    decreases |s|
  {
    if |s| > 0 {
      StripDigits(s[1..]);
      assert StripOrdinal(s) == [s[0]] + StripOrdinal(s[1..]) by {
        if |s| >= 2 {
          DigitStartsNoSuffix(s);
        }
      }
      assert s == [s[0]] + s[1..];
    }
  }

  /** Text starting with a digit does not start with an ordinal suffix. */
  lemma DigitStartsNoSuffix(s: string)
    requires |s| >= 2 && IsDecimalDigit(s[0])
    ensures s[..2] !in {"st", "rd", "nd", "th"}
  {
    assert s[..2][0] == s[0];
  }

  /** The suffix after a run of digits is removed whole. */
  lemma StripDigitsSuffix(s: string, suffix: string)
    requires forall i :: 0 <= i < |s| ==> IsDecimalDigit(s[i])
    requires suffix in {"st", "nd", "rd", "th"}
    ensures StripOrdinal(s + suffix) == s
    decreases |s|
  {
    if |s| == 0 {
      assert (s + suffix)[..2] == suffix;
      assert (s + suffix)[2..] == "";
    } else {
      StripDigitsSuffix(s[1..], suffix);
      assert (s + suffix)[1..] == s[1..] + suffix;
      assert (s + suffix)[..2][0] == s[0];
    }
  }

  /** A day written with the suffix `formatDate` gives it comes back as two digits. */
  lemma OrdinalDayRoundTrip(day: int)
    requires 1 <= day <= 31
    ensures OrdinalDay(IntToString(day) + GetNthSuffix(day)) == TwoDigits(day)
  {
    StripDigitsSuffix(IntToString(day), GetNthSuffix(day));
    ParseIntOfIntToString(day);
  }

  // ---------------------------------------------------------------------
  // parseDate

  datatype FormatArg = FormatString(s: string) | FormatFunction(f: int -> string)

  /** The `parser` argument: absent or falsy, a function, or a truthy non-function. */
  datatype ParserArg = NoParser | ParserFunction(f: string -> Parsed) | NotAFunction

  /** What `parseDate` hands back: a Date or a string. */
  datatype Parsed = ParsedDate(date: DateObj) | Unparsed(text: string)

  function ParseDateWithLibrary(dateStr: string, format: FormatArg, parser: ParserArg): (r: Result<Parsed, JsError>)
    ensures !parser.ParserFunction? <==> r == Failure(PlainError("Parser needs to be a function"))
    ensures parser.ParserFunction? && !format.FormatFunction? ==>
      r == Failure(PlainError("Format needs to be a function when using a custom parser"))
    ensures parser.ParserFunction? && format.FormatFunction? ==> r == Success(parser.f(dateStr))
  {
    if !parser.ParserFunction? then Failure(PlainError("Parser needs to be a function"))
    else if !format.FormatFunction? then Failure(PlainError("Format needs to be a function when using a custom parser"))
    else Success(parser.f(dateStr))
  }

  /**
   * `parseDate(dateStr, format, translation, parser)` at instant `now`, with
   * `dateParse` standing for `Date.parse`.
   */
  function ParseDate(u: Utils, dateStr: string, format: FormatArg, tr: Translation, parser: ParserArg,
                     now: int, dateParse: string -> Option<int>): (r: Result<Parsed, JsError>)
    ensures dateStr == [] || format == FormatString([]) ==> r == Success(Unparsed(dateStr))
    ensures dateStr != [] && format != FormatString([]) && (!parser.NoParser? || format.FormatFunction?) ==>
      r == ParseDateWithLibrary(dateStr, format, parser)
    ensures dateStr != [] && format.FormatString? && format.s != [] && parser.NoParser? ==>
      var p := GetParsableDate(dateStr, format.s, tr, GetFullYear(u, now), GetTime(u));
      (p.Failure? ==> r == Failure(p.error))
      && (p.Success? && dateParse(p.value).None? ==> r == Success(Unparsed(dateStr)))
      && (p.Success? && dateParse(p.value).Some? ==> r == Success(ParsedDate(At(dateParse(p.value).value))))
  {
    if dateStr == [] || format == FormatString([]) then Success(Unparsed(dateStr))
    else if !parser.NoParser? || format.FormatFunction? then ParseDateWithLibrary(dateStr, format, parser)
    else
      var parsableDate :- GetParsableDate(dateStr, format.s, tr, GetFullYear(u, now), GetTime(u));
      match dateParse(parsableDate)
      case None => Success(Unparsed(dateStr))
      case Some(ms) => Success(ParsedDate(At(ms)))
  }

  // ---------------------------------------------------------------------
  // Formatting then parsing

  /** The ISO date text `year-MM-dd` of a calendar date (0-based month). */
  function IsoText(c: Civil): string {
    IntToString(c.year) + "-" + TwoDigits(c.month + 1) + "-" + TwoDigits(c.day)
  }

  /** Split of three space-free pieces joined by spaces. */
  lemma SplitThree(a: string, b: string, c: string, sep: char)
    requires sep !in a && sep !in b && sep !in c
    ensures Split(a + [sep] + b + [sep] + c, sep) == [a, b, c]
  {
    var parts := [a, b, c];
    assert Join(parts, [sep]) == a + [sep] + b + [sep] + c by {
      assert parts[1..] == [b, c];
      assert parts[1..][1..] == [c];
      assert Join([c], [sep]) == c;
      assert Join([b, c], [sep]) == b + [sep] + c;
    }
    JoinSplit(parts, sep);
  }

  lemma DigitsHaveNo(s: string, c: char)
    requires forall i :: 0 <= i < |s| ==> IsDecimalDigit(s[i])
    requires !IsDecimalDigit(c)
    ensures c !in s
  {
  }

  lemma IntToStringHasNoSpace(n: int)
    ensures ' ' !in IntToString(n)
  {
    if n < 0 {
      DigitsHaveNo(NatToString(-n), ' ');
      assert IntToString(n) == "-" + NatToString(-n);
    } else {
      DigitsHaveNo(NatToString(n), ' ');
    }
  }

  lemma TwoDigitsHaveNo(v: int, c: char)
    requires 1 <= v <= 99 && !IsDecimalDigit(c)
    ensures c !in TwoDigits(v)
  {
    if v < 10 {
      assert TwoDigits(v) == ['0', DigitChar(v)];
    } else {
      DigitsHaveNo(NatToString(v), c);
    }
  }

  /** The loop over the segments `dd`, `MMM`, `yyyy`. */
  lemma RebuildDayMonthYear(dd: string, mmm: string, yyyy: string, tr: Translation, y0: Ymd)
    ensures AssignFrom(["dd", "MMM", "yyyy"], [dd, mmm, yyyy], tr, 0, y0)
            == Success(Ymd(Some(yyyy), Some(GetMonthByAbbrName(tr, mmm)), Some(dd)))
  {
    var df := ["dd", "MMM", "yyyy"];
    var ds := [dd, mmm, yyyy];
    ClassifyDd();
    ClassifyMMM();
    ClassifyYyyy();
    var y1 := y0.(day := Some(dd));
    var y2 := y1.(month := Some(GetMonthByAbbrName(tr, mmm)));
    var y3 := y2.(year := Some(yyyy));
    assert AssignFrom(df, ds, tr, 3, y3) == Success(y3);
    assert Assign(y2, Classify(df[2]), Entry(ds, 2), tr) == Success(y3);
    assert AssignFrom(df, ds, tr, 2, y2) == Success(y3);
    assert Assign(y1, Classify(df[1]), Entry(ds, 1), tr) == Success(y2);
    assert AssignFrom(df, ds, tr, 1, y1) == Success(y3);
    assert Assign(y0, Classify(df[0]), Entry(ds, 0), tr) == Success(y1);
  }

  lemma SplitterDayMonthYear(f: string)
    requires IsDayMonthYearFormat(f)
    ensures Splitter(f) == Some(' ')
    ensures Split(f, ' ') == ["dd", "MMM", "yyyy"]
  {
    assert f == "dd MMM yyyy";
    assert !IsSeparator(f[0]) && !IsSeparator(f[1]) && IsSeparator(f[2]);
    assert f[1..][1..] == " MMM yyyy";
    assert f == "dd" + [' '] + "MMM" + [' '] + "yyyy";
    SplitThree("dd", "MMM", "yyyy", ' ');
  }

  /** Any three space-free pieces typed against `dd MMM yyyy`. */
  lemma RebuildText(dd: string, mmm: string, yyyy: string, tr: Translation, fmt: string, currentYear: int, time: string)
    requires IsDayMonthYearFormat(fmt)
    requires ' ' !in dd && ' ' !in mmm && ' ' !in yyyy
    ensures GetParsableDate(dd + [' '] + mmm + [' '] + yyyy, fmt, tr, currentYear, time)
            == Success(yyyy + "-" + GetMonthByAbbrName(tr, mmm) + "-" + dd + time)
  {
    SplitThree(dd, mmm, yyyy, ' ');
    SplitterDayMonthYear(fmt);
    RebuildDayMonthYear(dd, mmm, yyyy, tr, Ymd(Some(IntToString(currentYear)), Some("01"), Some("01")));
  }

  lemma AbbrNumber(tr: Translation, month: int)
    requires Valid(tr) && 0 <= month < 12
    requires forall i, j :: 0 <= i < j < 12 ==> tr.monthsAbbr[i] != tr.monthsAbbr[j]
    ensures GetMonthByAbbrName(tr, tr.monthsAbbr[month]) == TwoDigits(month + 1)
  {
    FirstIndexOfDistinct(tr.monthsAbbr, month);
  }

  /**
   * Text written with the display format `dd MMM yyyy` is rebuilt into the
   * ISO date of the same calendar date, provided the abbreviations are
   * distinct and contain no space.
   */
  lemma FormatThenRebuild(u: Utils, t: int, tr: Translation, fmt: string, currentYear: int, time: string)
    requires IsDayMonthYearFormat(fmt)
    requires Valid(tr)
    requires forall i, j :: 0 <= i < j < 12 ==> tr.monthsAbbr[i] != tr.monthsAbbr[j]
    requires forall i :: 0 <= i < 12 ==> ' ' !in tr.monthsAbbr[i]
    ensures GetParsableDate(FormatDate(u, t, fmt, tr), fmt, tr, currentYear, time)
            == Success(IsoText(Fields(u, t)) + time)
  {
    var c := Fields(u, t);
    FormatDayMonthYear(u, t, tr, fmt);
    PadTwoIsTwoDigits(GetDate(u, t));
    assert FormatDate(u, t, fmt, tr)
      == TwoDigits(c.day) + [' '] + tr.monthsAbbr[c.month] + [' '] + IntToString(c.year);
    RebuildIso(c, tr, fmt, currentYear, time);
  }

  /** The `dd MMM yyyy` text of a calendar date rebuilds into its ISO text. */
  lemma RebuildIso(c: Civil, tr: Translation, fmt: string, currentYear: int, time: string)
    requires IsDayMonthYearFormat(fmt)
    requires Valid(tr) && 0 <= c.month < 12 && 1 <= c.day <= 31
    requires forall i, j :: 0 <= i < j < 12 ==> tr.monthsAbbr[i] != tr.monthsAbbr[j]
    requires forall i :: 0 <= i < 12 ==> ' ' !in tr.monthsAbbr[i]
    ensures GetParsableDate(TwoDigits(c.day) + [' '] + tr.monthsAbbr[c.month] + [' '] + IntToString(c.year),
                            fmt, tr, currentYear, time)
            == Success(IsoText(c) + time)
  {
    var dd, mmm, yyyy := TwoDigits(c.day), tr.monthsAbbr[c.month], IntToString(c.year);
    assert ' ' !in dd && ' ' !in mmm && ' ' !in yyyy by {
      TwoDigitsHaveNo(c.day, ' ');
      IntToStringHasNoSpace(c.year);
    }
    assert GetMonthByAbbrName(tr, mmm) == TwoDigits(c.month + 1) by {
      AbbrNumber(tr, c.month);
    }
    RebuildText(dd, mmm, yyyy, tr, fmt, currentYear, time);
    IsoTextOf(c, GetMonthByAbbrName(tr, mmm));
  }

  lemma IsoTextOf(c: Civil, mm: string)
    requires mm == TwoDigits(c.month + 1)
    ensures IntToString(c.year) + "-" + mm + "-" + TwoDigits(c.day) == IsoText(c)
  {
  }

  /**
   * Format, then parse: with an engine `Date.parse` that reads the ISO text
   * of the date, plus the mode's time suffix, as that date's midnight in the
   * active mode, text written as `dd MMM yyyy` parses back to the date with
   * its time of day reset.
   */
  lemma FormatThenParse(u: Utils, t: int, tr: Translation, fmt: string, now: int, dateParse: string -> Option<int>)
    requires IsDayMonthYearFormat(fmt)
    requires Valid(tr)
    requires forall i, j :: 0 <= i < j < 12 ==> tr.monthsAbbr[i] != tr.monthsAbbr[j]
    requires forall i :: 0 <= i < 12 ==> ' ' !in tr.monthsAbbr[i]
    requires dateParse(IsoText(Fields(u, t)) + GetTime(u))
             == Some(ModeDate(u, GetFullYear(u, t), GetMonth(u, t), GetDate(u, t)))
    ensures ParseDate(u, FormatDate(u, t, fmt, tr), FormatString(fmt), tr, NoParser, now, dateParse)
            == Success(ParsedDate(At(ResetDateTime(u, t))))
  {
    var text := FormatDate(u, t, fmt, tr);
    var iso := IsoText(Fields(u, t)) + GetTime(u);
    assert GetParsableDate(text, fmt, tr, GetFullYear(u, now), GetTime(u)) == Success(iso) by {
      FormatThenRebuild(u, t, tr, fmt, GetFullYear(u, now), GetTime(u));
    }
    assert text != [] by {
      FormatDayMonthYear(u, t, tr, fmt);
    }
    assert ModeDate(u, GetFullYear(u, t), GetMonth(u, t), GetDate(u, t)) == ResetDateTime(u, t) by {
      var c := Fields(u, t);
      DaysRoundTrip(DayIndex(u, t));
      MakeDayValid(c.year, c.month, c.day);
    }
  }
}
