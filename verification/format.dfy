/**
 * `formatDate`: the format string is cut left to right into the tokens of
 * the pattern `y{4}|y{2}|M{1,4}|d{1,2}|o|E` (longest alternative first, as
 * the regular expression tries them) and single literal characters; each
 * token is replaced by a field of the date, literals are copied.
 */
module DateFormat {
  import opened Wrappers
  import opened Calendar
  import opened JsText
  import opened DateUtils
  import opened Language

  datatype Token =
    | Lit(c: char)
    | Year4 | Year2
    | Month1 | Month2 | Month3 | Month4
    | Day1 | Day2
    | Ordinal | DayName

  /** The text a token was cut from. */
  function Source(tok: Token): string {
    match tok
    case Lit(c) => [c]
    case Year4 => "yyyy"
    case Year2 => "yy"
    case Month1 => "M"
    case Month2 => "MM"
    case Month3 => "MMM"
    case Month4 => "MMMM"
    case Day1 => "d"
    case Day2 => "dd"
    case Ordinal => "o"
    case DayName => "E"
  }

  function Render(tokens: seq<Token>): string {
    if |tokens| == 0 then "" else Source(tokens[0]) + Render(tokens[1..])
  }

  /** Number of leading copies of `c` in `s`, at most `max`. */
  function Run(s: string, c: char, max: nat): (n: nat)
    ensures n <= max && n <= |s|
    ensures forall i :: 0 <= i < n ==> s[i] == c
    ensures n < max && n < |s| ==> s[n] != c
  {
    if max == 0 || |s| == 0 || s[0] != c then 0 else 1 + Run(s[1..], c, max - 1)
  }

  /**
   * The token at the start of a non-empty format string, and its length:
   * the alternatives `yyyy`, `yy`, `M{1,4}`, `d{1,2}`, `o`, `E` are tried in
   * that order, each run is as long as its cap allows, and a character that
   * starts none of them is a literal.
   */
  function NextToken(s: string): (r: (Token, nat))
    requires |s| > 0
    ensures 1 <= r.1 <= |s| && s[..r.1] == Source(r.0)
    ensures r.0.Lit? <==> !StartsWith(s, "yy") && s[0] !in {'M', 'd', 'o', 'E'}
    ensures r.0.Lit? ==> r == (Lit(s[0]), 1)
    ensures StartsWith(s, "yyyy") ==> r.0 == Year4
    ensures StartsWith(s, "yy") && !StartsWith(s, "yyyy") ==> r.0 == Year2
    ensures s[0] == 'M' ==> r.0 in {Month1, Month2, Month3, Month4} && (r.1 < 4 && r.1 < |s| ==> s[r.1] != 'M')
    ensures s[0] == 'd' ==> r.0 in {Day1, Day2} && (r.1 < 2 && r.1 < |s| ==> s[r.1] != 'd')
    ensures s[0] == 'o' ==> r.0 == Ordinal
    ensures s[0] == 'E' ==> r.0 == DayName
  {
    if StartsWith(s, "yyyy") then (Year4, 4)
    else if StartsWith(s, "yy") then (Year2, 2)
    else if s[0] == 'M' then
      var n := Run(s, 'M', 4);
      assert s[..n] == seq(n, _ => 'M');
      (if n == 1 then Month1 else if n == 2 then Month2 else if n == 3 then Month3 else Month4, n)
    else if s[0] == 'd' then
      var n := Run(s, 'd', 2);
      assert s[..n] == seq(n, _ => 'd');
      (if n == 1 then Day1 else Day2, n)
    else if s[0] == 'o' then (Ordinal, 1)
    else if s[0] == 'E' then (DayName, 1)
    else (Lit(s[0]), 1)
  }

  function Tokenize(s: string): (tokens: seq<Token>)
    decreases |s|
  {
    if |s| == 0 then [] else var (tok, n) := NextToken(s); [tok] + Tokenize(s[n..])
  }

  /** The tokens cover the format string exactly, in order. */
  lemma {:induction false} TokenizeCovers(s: string)
    ensures Render(Tokenize(s)) == s
    decreases |s|
  {
    if |s| > 0 {
      var r := NextToken(s);
      TokenizeCovers(s[r.1..]);
      TokenizeStep(s);
      CoversStep(s, r.0, r.1, Tokenize(s[r.1..]));
    }
  }

  /** A token cut from the front, followed by tokens rendering the rest, renders the whole string. */
  lemma CoversStep(s: string, tok: Token, n: nat, rest: seq<Token>)
    requires n <= |s| && s[..n] == Source(tok) && Render(rest) == s[n..]
    ensures Render([tok] + rest) == s
  {
    RenderCons(tok, rest);
    assert s[..n] + s[n..] == s;
  }

  lemma RenderCons(tok: Token, rest: seq<Token>)
    ensures Render([tok] + rest) == Source(tok) + Render(rest)
  {
    assert ([tok] + rest)[1..] == rest;
  }

  /** The characters that can start a token. */
  predicate IsPatternChar(c: char) {
    c == 'y' || c == 'M' || c == 'd' || c == 'o' || c == 'E'
  }

  /** A format string without pattern characters is all literals. */
  lemma {:induction false} TokenizeLiterals(s: string)
    requires forall i :: 0 <= i < |s| ==> !IsPatternChar(s[i])
    ensures Tokenize(s) == seq(|s|, i requires 0 <= i < |s| => Lit(s[i]))
    decreases |s|
  {
    if |s| > 0 {
      TokenizeLiterals(s[1..]);
      NextLiteral(s);
      TokenizeCons(s, Lit(s[0]), 1, s[1..], Tokenize(s[1..]));
      assert seq(|s|, i requires 0 <= i < |s| => Lit(s[i]))
        == [Lit(s[0])] + seq(|s| - 1, i requires 0 <= i < |s| - 1 => Lit(s[1..][i]));
    }
  }

  // ---------------------------------------------------------------------
  // Replacement

  /** `${x}`.slice(-2) on a `0`-prefixed number: the last two characters. */
  function PadTwo(v: int): string {
    var text := "0" + IntToString(v);
    Slice(text, -2, |text|)
  }

  /** The fields `formatDate` reads from the date before replacing tokens. */
  datatype DateParts = DateParts(year: int, month: int, date: int, weekday: int)

  predicate ValidParts(p: DateParts) {
    0 <= p.month < 12 && 0 <= p.weekday < 7
  }

  /** The date's full year, month (0-based), day of month and day of week in the active mode. */
  function PartsOf(u: Utils, t: int): (p: DateParts)
    ensures ValidParts(p)
    ensures p.year == GetFullYear(u, t) && p.month == GetMonth(u, t) && p.date == GetDate(u, t) && p.weekday == GetDay(u, t)
  {
    DateParts(GetFullYear(u, t), GetMonth(u, t), GetDate(u, t), GetDay(u, t))
  }

  /** The text that replaces one token. */
  function Replacement(p: DateParts, tr: Translation, tok: Token): string
    requires Valid(tr) && ValidParts(p)
  {
    match tok
    case Lit(c) => [c]
    case Day1 => IntToString(p.date)
    case Day2 => PadTwo(p.date)
    case DayName => tr.days[p.weekday]
    case Ordinal => GetNthSuffix(p.date)
    case Month1 => IntToString(p.month + 1)
    case Month2 => PadTwo(p.month + 1)
    case Month3 => tr.monthsAbbr[p.month]
    case Month4 => tr.months[p.month]
    case Year2 => Slice(IntToString(p.year), 2, |IntToString(p.year)|)
    case Year4 => IntToString(p.year)
  }

  function FormatTokens(p: DateParts, tr: Translation, tokens: seq<Token>): string
    requires Valid(tr) && ValidParts(p)
  {
    if |tokens| == 0 then "" else Replacement(p, tr, tokens[0]) + FormatTokens(p, tr, tokens[1..])
  }

  /** `formatDate(date, formatStr, translation)`. */
  function FormatDate(u: Utils, t: int, formatStr: string, tr: Translation): string
    requires Valid(tr)
  {
    FormatTokens(PartsOf(u, t), tr, Tokenize(formatStr))
  }

  lemma {:induction false} FormatTokensAppend(p: DateParts, tr: Translation, a: seq<Token>, b: seq<Token>)
    requires Valid(tr) && ValidParts(p)
    ensures FormatTokens(p, tr, a + b) == FormatTokens(p, tr, a) + FormatTokens(p, tr, b)
    decreases |a|
  {
    if |a| > 0 {
      FormatTokensAppend(p, tr, a[1..], b);
      assert (a + b)[0] == a[0];
      assert (a + b)[1..] == a[1..] + b;
    } else {
      assert a + b == b;
    }
  }

  /** Characters that cannot start a token are copied unchanged. */
  lemma {:induction false} FormatCopiesLiterals(u: Utils, t: int, s: string, tr: Translation)
    requires Valid(tr)
    requires forall i :: 0 <= i < |s| ==> !IsPatternChar(s[i])
    ensures FormatDate(u, t, s, tr) == s
  {
    TokenizeLiterals(s);
    LiteralTokens(PartsOf(u, t), tr, s);
  }

  lemma {:induction false} LiteralTokens(p: DateParts, tr: Translation, s: string)
    requires Valid(tr) && ValidParts(p)
    ensures FormatTokens(p, tr, seq(|s|, i requires 0 <= i < |s| => Lit(s[i]))) == s
    decreases |s|
  {
    if |s| > 0 {
      LiteralTokens(p, tr, s[1..]);
      assert seq(|s|, i requires 0 <= i < |s| => Lit(s[i]))[1..] == seq(|s[1..]|, i requires 0 <= i < |s[1..]| => Lit(s[1..][i]));
    }
  }

  /** Zero padding gives the same two characters as the month-number text of the translation. */
  lemma PadTwoIsTwoDigits(v: int)
    requires 1 <= v <= 99
    ensures PadTwo(v) == TwoDigits(v)
    ensures |PadTwo(v)| == 2
  {
    if v < 10 {
      assert IntToString(v) == [DigitChar(v)];
    } else {
      assert IntToString(v) == NatToString(v / 10) + [DigitChar(v % 10)];
      assert |NatToString(v / 10)| == 1;
    }
  }

  lemma NatToStringStep(n: nat)
    requires n >= 10
    ensures |NatToString(n)| == |NatToString(n / 10)| + 1
  {
  }

  /** For a four-digit year, `yy` drops the first two of its four characters. */
  lemma ShortYear(year: int)
    requires 1000 <= year <= 9999
    ensures var text := IntToString(year); |text| == 4 && Slice(text, 2, |text|) == text[2..]
  {
    var a := year / 10;
    var b := a / 10;
    var c := b / 10;
    assert 100 <= a <= 999 && 10 <= b <= 99 && 1 <= c <= 9;
    NatToStringStep(year);
    NatToStringStep(a);
    NatToStringStep(b);
  }

  /** Tokenizing unfolds by one token. */
  lemma TokenizeStep(s: string)
    requires |s| > 0
    ensures Tokenize(s) == [NextToken(s).0] + Tokenize(s[NextToken(s).1..])
  {
  }

  lemma NextLiteral(s: string)
    requires |s| > 0 && !IsPatternChar(s[0])
    ensures NextToken(s) == (Lit(s[0]), 1)
  {
    assert !StartsWith(s, "yyyy") by { if |s| >= 4 { assert s[..4][0] == s[0]; } }
    assert !StartsWith(s, "yy") by { if |s| >= 2 { assert s[..2][0] == s[0]; } }
  }

  lemma NextYear4(s: string)
    requires |s| >= 4 && s[..4] == "yyyy"
    ensures NextToken(s) == (Year4, 4)
  {
  }

  lemma NextDay2(s: string)
    requires |s| >= 2 && s[0] == 'd' && s[1] == 'd'
    ensures NextToken(s) == (Day2, 2)
  {
    assert !StartsWith(s, "yyyy") by { if |s| >= 4 { assert s[..4][0] == s[0]; } }
    assert !StartsWith(s, "yy") by { assert s[..2][0] == s[0]; }
    assert Run(s, 'd', 2) == 2 by {
      assert s[1..][0] == 'd';
      assert Run(s[1..][1..], 'd', 0) == 0;
    }
  }

  lemma NextMonth(s: string, n: nat)
    requires 2 <= n <= 3 && |s| > n
    requires forall i :: 0 <= i < n ==> s[i] == 'M'
    requires s[n] != 'M'
    ensures NextToken(s) == (if n == 2 then Month2 else Month3, n)
  {
    assert !StartsWith(s, "yyyy") by { if |s| >= 4 { assert s[..4][0] == s[0]; } }
    assert !StartsWith(s, "yy") by { assert s[..2][0] == s[0]; }
    RunExact(s, 'M', 4, n);
  }

  lemma {:induction false} RunExact(s: string, c: char, max: nat, n: nat)
    requires n < max && n < |s|
    requires forall i :: 0 <= i < n ==> s[i] == c
    requires s[n] != c
    ensures Run(s, c, max) == n
    decreases n
  {
    if n > 0 {
      RunExact(s[1..], c, max - 1, n - 1);
    }
  }

  /** `dd MMM yyyy` cuts into day, space, abbreviated month, space, year. */
  lemma TokenizeDayMonthYear(s: string)
    requires IsDayMonthYearFormat(s)
    ensures Tokenize(s) == [Day2, Lit(' '), Month3, Lit(' '), Year4]
  {
    DayMonthYearFromSpace(s);
    NextDay2(s);
    TokenizeCons(s, Day2, 2, s[2..], [Lit(' '), Month3, Lit(' '), Year4]);
  }

  lemma DayMonthYearFromSpace(s: string)
    requires IsDayMonthYearFormat(s)
    ensures Tokenize(s[2..]) == [Lit(' '), Month3, Lit(' '), Year4]
  {
    DayMonthYearFromMonth(s);
    NextLiteral(s[2..]);
    TokenizeCons(s[2..], Lit(' '), 1, s[3..], [Month3, Lit(' '), Year4]);
  }

  lemma DayMonthYearFromMonth(s: string)
    requires IsDayMonthYearFormat(s)
    ensures Tokenize(s[3..]) == [Month3, Lit(' '), Year4]
  {
    DayMonthYearFromYear(s);
    NextMonth(s[3..], 3);
    TokenizeCons(s[3..], Month3, 3, s[6..], [Lit(' '), Year4]);
  }

  lemma DayMonthYearFromYear(s: string)
    requires IsDayMonthYearFormat(s)
    ensures Tokenize(s[6..]) == [Lit(' '), Year4]
  {
    assert s[7..] == "yyyy";
    NextYear4(s[7..]);
    TokenizeLast(s[7..], Year4, 4);
    NextLiteral(s[6..]);
    TokenizeCons(s[6..], Lit(' '), 1, s[7..], [Year4]);
  }

  /** `yyyy-MM-dd` cuts into year, dash, two-digit month, dash, two-digit day. */
  lemma TokenizeIso(s: string)
    requires IsIsoFormat(s)
    ensures Tokenize(s) == [Year4, Lit('-'), Month2, Lit('-'), Day2]
  {
    IsoFromDash(s);
    assert s[..4] == "yyyy";
    NextYear4(s);
    TokenizeCons(s, Year4, 4, s[4..], [Lit('-'), Month2, Lit('-'), Day2]);
  }

  lemma IsoFromDash(s: string)
    requires IsIsoFormat(s)
    ensures Tokenize(s[4..]) == [Lit('-'), Month2, Lit('-'), Day2]
  {
    IsoFromMonth(s);
    NextLiteral(s[4..]);
    TokenizeCons(s[4..], Lit('-'), 1, s[5..], [Month2, Lit('-'), Day2]);
  }

  lemma IsoFromMonth(s: string)
    requires IsIsoFormat(s)
    ensures Tokenize(s[5..]) == [Month2, Lit('-'), Day2]
  {
    IsoFromDay(s);
    NextMonth(s[5..], 2);
    TokenizeCons(s[5..], Month2, 2, s[7..], [Lit('-'), Day2]);
  }

  lemma IsoFromDay(s: string)
    requires IsIsoFormat(s)
    ensures Tokenize(s[7..]) == [Lit('-'), Day2]
  {
    assert s[8..] == "dd";
    NextDay2(s[8..]);
    TokenizeLast(s[8..], Day2, 2);
    NextLiteral(s[7..]);
    TokenizeCons(s[7..], Lit('-'), 1, s[8..], [Day2]);
  }

  /** A string that is exactly one token's source. */
  lemma TokenizeLast(s: string, tok: Token, n: nat)
    requires s == Source(tok) && 0 < n == |s| && NextToken(s) == (tok, n)
    ensures Tokenize(s) == [tok]
  {
    TokenizeStep(s);
    assert s[n..] == [];
  }

  /** The first token, then the tokens of the rest. */
  lemma TokenizeCons(s: string, tok: Token, n: nat, tail: string, rest: seq<Token>)
    requires 0 < n <= |s| && NextToken(s) == (tok, n) && tail == s[n..] && Tokenize(tail) == rest
    ensures Tokenize(s) == [tok] + rest
  {
    TokenizeStep(s);
  }

  /** One more token appends its replacement. */
  lemma FormatSnoc(p: DateParts, tr: Translation, a: seq<Token>, x: Token)
    requires Valid(tr) && ValidParts(p)
    ensures FormatTokens(p, tr, a + [x]) == FormatTokens(p, tr, a) + Replacement(p, tr, x)
  {
    FormatTokensAppend(p, tr, a, [x]);
    assert [x][1..] == [];
  }

  /** Five tokens format to the concatenation of their replacements. */
  lemma FormatFive(p: DateParts, tr: Translation, a: Token, b: Token, c: Token, d: Token, e: Token)
    requires Valid(tr) && ValidParts(p)
    ensures FormatTokens(p, tr, [a, b, c, d, e])
      == Replacement(p, tr, a) + Replacement(p, tr, b) + Replacement(p, tr, c)
         + Replacement(p, tr, d) + Replacement(p, tr, e)
  {
    var ra, rb, rc, rd, re := Replacement(p, tr, a), Replacement(p, tr, b), Replacement(p, tr, c), Replacement(p, tr, d), Replacement(p, tr, e);
    assert FormatTokens(p, tr, [a]) == ra by {
      assert [a][1..] == [];
    }
    assert FormatTokens(p, tr, [a, b]) == ra + rb by {
      FormatSnoc(p, tr, [a], b);
      assert [a] + [b] == [a, b];
    }
    assert FormatTokens(p, tr, [a, b, c]) == ra + rb + rc by {
      FormatSnoc(p, tr, [a, b], c);
      assert [a, b] + [c] == [a, b, c];
    }
    assert FormatTokens(p, tr, [a, b, c, d]) == ra + rb + rc + rd by {
      FormatSnoc(p, tr, [a, b, c], d);
      assert [a, b, c] + [d] == [a, b, c, d];
    }
    FormatSnoc(p, tr, [a, b, c, d], e);
    assert [a, b, c, d] + [e] == [a, b, c, d, e];
  }

  /** A format string of five tokens formats to their five replacements. */
  lemma FormatOfTokens(u: Utils, t: int, tr: Translation, s: string, a: Token, b: Token, c: Token, d: Token, e: Token)
    requires Valid(tr) && Tokenize(s) == [a, b, c, d, e]
    ensures var p := PartsOf(u, t);
      FormatDate(u, t, s, tr)
      == Replacement(p, tr, a) + Replacement(p, tr, b) + Replacement(p, tr, c) + Replacement(p, tr, d) + Replacement(p, tr, e)
  {
    FormatFive(PartsOf(u, t), tr, a, b, c, d, e);
  }

  /** The picker's display format `dd MMM yyyy`, spelled out character by character. */
  predicate IsDayMonthYearFormat(s: string) {
    |s| == 11 && s[0] == s[1] == 'd' && s[2] == ' ' && s[3] == s[4] == s[5] == 'M' && s[6] == ' '
    && s[7] == s[8] == s[9] == s[10] == 'y'
  }

  /** The ISO-like format `yyyy-MM-dd`, spelled out character by character. */
  predicate IsIsoFormat(s: string) {
    |s| == 10 && s[0] == s[1] == s[2] == s[3] == 'y' && s[4] == '-' && s[5] == s[6] == 'M'
    && s[7] == '-' && s[8] == s[9] == 'd'
  }

  /** The picker's display format `dd MMM yyyy`, field by field. */
  lemma FormatDayMonthYear(u: Utils, t: int, tr: Translation, s: string)
    requires Valid(tr) && IsDayMonthYearFormat(s)
    ensures FormatDate(u, t, s, tr)
      == PadTwo(GetDate(u, t)) + " " + tr.monthsAbbr[GetMonth(u, t)] + " " + IntToString(GetFullYear(u, t))
  {
    var p := PartsOf(u, t);
    assert Replacement(p, tr, Day2) == PadTwo(GetDate(u, t));
    assert Replacement(p, tr, Lit(' ')) == " ";
    assert Replacement(p, tr, Month3) == tr.monthsAbbr[GetMonth(u, t)];
    assert Replacement(p, tr, Year4) == IntToString(GetFullYear(u, t));
    TokenizeDayMonthYear(s);
    FormatOfTokens(u, t, tr, s, Day2, Lit(' '), Month3, Lit(' '), Year4);
  }

  /** The ISO-like format `yyyy-MM-dd`, field by field. */
  lemma FormatIso(u: Utils, t: int, tr: Translation, s: string)
    requires Valid(tr) && IsIsoFormat(s)
    ensures FormatDate(u, t, s, tr)
      == IntToString(GetFullYear(u, t)) + "-" + PadTwo(GetMonth(u, t) + 1) + "-" + PadTwo(GetDate(u, t))
  {
    var p := PartsOf(u, t);
    assert Replacement(p, tr, Year4) == IntToString(GetFullYear(u, t));
    assert Replacement(p, tr, Lit('-')) == "-";
    assert Replacement(p, tr, Month2) == PadTwo(GetMonth(u, t) + 1);
    assert Replacement(p, tr, Day2) == PadTwo(GetDate(u, t));
    TokenizeIso(s);
    FormatOfTokens(u, t, tr, s, Year4, Lit('-'), Month2, Lit('-'), Day2);
  }
}
