/**
 * The slice of ECMAScript string semantics the picker relies on:
 * `String(n)` for integers, `slice`, `split` and `join` with a
 * one-character separator, the regular-expression class `\s`, ASCII
 * case folding as used by the `i` flag on the letters the picker
 * matches, and `parseInt` without a radix.
 */
module JsText {
  import opened Wrappers

  /** The exceptions the picker throws: `TypeError`, `RangeError` and plain `Error`. */
  datatype JsError = TypeError(msg: string) | RangeError(msg: string) | PlainError(msg: string)

  // ---------------------------------------------------------------------
  // Decimal rendering, `String(n)` for integral numbers

  function DigitChar(d: int): char
    requires 0 <= d < 10
  {
    "0123456789"[d]
  }

  /** Decimal digits of a natural number, most significant first, no leading zeros. */
  function NatToString(n: nat): (s: string)
    ensures |s| >= 1
    ensures forall i :: 0 <= i < |s| ==> IsDecimalDigit(s[i])
    ensures s[0] == '0' ==> n == 0 && |s| == 1
    decreases n
  {
    if n < 10 then [DigitChar(n)] else NatToString(n / 10) + [DigitChar(n % 10)]
  }

  /** `String(n)` for an integral number (exponent notation from 1e21 on is not modelled). */
  function IntToString(n: int): string {
    if n < 0 then "-" + NatToString(-n) else NatToString(n)
  }

  // ---------------------------------------------------------------------
  // Characters

  predicate IsDecimalDigit(c: char) {
    '0' <= c <= '9'
  }

  function DigitValue(c: char, radix: int): (v: int)
    ensures -1 <= v < radix || v == -1
  {
    if '0' <= c <= '9' && (c as int) - ('0' as int) < radix then (c as int) - ('0' as int)
    else if radix == 16 && 'a' <= c <= 'f' then (c as int) - ('a' as int) + 10
    else if radix == 16 && 'A' <= c <= 'F' then (c as int) - ('A' as int) + 10
    else -1
  }

  /**
   * ECMAScript WhiteSpace and LineTerminator code points: what the regular
   * expression class `\s` matches and what `parseInt` skips.
   */
  predicate IsJsWhitespace(c: char) {
    var n := c as int;
    || n == 0x0009 || n == 0x000B || n == 0x000C || n == 0x0020 || n == 0x00A0
    || n == 0xFEFF || n == 0x1680 || (0x2000 <= n <= 0x200A) || n == 0x202F
    || n == 0x205F || n == 0x3000
    || n == 0x000A || n == 0x000D || n == 0x2028 || n == 0x2029
  }

  /** Case folding of the `i` regular-expression flag, restricted to ASCII letters. */
  function AsciiLower(c: char): char {
    if 'A' <= c <= 'Z' then ((c as int) + 32) as char else c
  }

  // ---------------------------------------------------------------------
  // Substrings

  predicate StartsWith(s: string, p: string) {
    |p| <= |s| && s[..|p|] == p
  }

  /** `p` occurs in `s`, at position `i`, optionally ignoring ASCII case. */
  predicate OccursAt(s: string, p: string, i: int, ignoreCase: bool)
    requires 0 <= i
  {
    i + |p| <= |s| &&
    forall j :: 0 <= j < |p| ==>
      (if ignoreCase then AsciiLower(s[i + j]) == AsciiLower(p[j]) else s[i + j] == p[j])
  }

  /** `/p/.test(s)` (or `/p/i.test(s)` when `ignoreCase`) for a pattern of plain characters. */
  predicate Contains(s: string, p: string, ignoreCase: bool) {
    exists i :: 0 <= i <= |s| && OccursAt(s, p, i, ignoreCase)
  }

  /** `s.slice(start, end)` with negative positions counted from the end. */
  function Slice<T>(s: seq<T>, start: int, end: int): (r: seq<T>)
    ensures |r| <= |s|
  {
    var from := if start < 0 then (if |s| + start < 0 then 0 else |s| + start)
                else if start > |s| then |s| else start;
    var to := if end < 0 then (if |s| + end < 0 then 0 else |s| + end)
              else if end > |s| then |s| else end;
    if to <= from then [] else s[from..to]
  }

  /** `xs.indexOf(x)` on an array: the first position holding `x`, or -1. */
  function FindIndex<T(==)>(xs: seq<T>, x: T): (i: int)
    ensures -1 <= i < |xs|
    ensures i >= 0 ==> xs[i] == x && forall j :: 0 <= j < i ==> xs[j] != x
    ensures i == -1 <==> x !in xs
  {
    if |xs| == 0 then -1
    else if xs[0] == x then 0
    else var j := FindIndex(xs[1..], x); if j == -1 then -1 else j + 1
  }

  // ---------------------------------------------------------------------
  // split / join with a one-character separator

  /** Index of the first occurrence of `c` in `s`, or |s|. */
  function IndexOf(s: string, c: char): (i: nat)
    ensures i <= |s|
    ensures forall j :: 0 <= j < i ==> s[j] != c
    ensures i < |s| ==> s[i] == c
  {
    if |s| == 0 then 0 else if s[0] == c then 0 else 1 + IndexOf(s[1..], c)
  }

  /** `s.split(c)`. */
  function Split(s: string, c: char): (parts: seq<string>)
    ensures |parts| >= 1
    decreases |s|
  {
    var i := IndexOf(s, c);
    if i == |s| then [s] else [s[..i]] + Split(s[i + 1..], c)
  }

  /** `parts.join(sep)`. */
  function Join(parts: seq<string>, sep: string): string {
    if |parts| == 0 then ""
    else if |parts| == 1 then parts[0]
    else parts[0] + sep + Join(parts[1..], sep)
  }

  /** Splitting and joining again on the same separator gives back the string; no piece holds the separator. */
  lemma {:induction false} SplitJoin(s: string, c: char)
    ensures Join(Split(s, c), [c]) == s
    ensures forall k, j :: 0 <= k < |Split(s, c)| && 0 <= j < |Split(s, c)[k]| ==> Split(s, c)[k][j] != c
    decreases |s|
  {
    var i := IndexOf(s, c);
    if i < |s| {
      SplitJoin(s[i + 1..], c);
      var rest := Split(s[i + 1..], c);
      assert Split(s, c) == [s[..i]] + rest;
      assert s == s[..i] + [c] + s[i + 1..];
      forall k, j | 0 <= k < |Split(s, c)| && 0 <= j < |Split(s, c)[k]|
        ensures Split(s, c)[k][j] != c
      {
        if k > 0 {
          assert Split(s, c)[k] == rest[k - 1];
        }
      }
    }
  }

  /** Splitting the join of separator-free pieces gives the pieces back. */
  lemma {:induction false} JoinSplit(parts: seq<string>, c: char)
    requires |parts| >= 1
    requires forall k :: 0 <= k < |parts| ==> c !in parts[k]
    ensures Split(Join(parts, [c]), c) == parts
    decreases |parts|
  {
    if |parts| == 1 {
      NoSeparatorIndex(parts[0], c);
    } else {
      var tail := Join(parts[1..], [c]);
      assert Split(tail, c) == parts[1..] by {
        JoinSplit(parts[1..], c);
      }
      var s := parts[0] + [c] + tail;
      assert Join(parts, [c]) == s;
      assert IndexOf(s, c) == |parts[0]| by {
        assert s == parts[0] + ([c] + tail);
        IndexOfAfterPrefix(parts[0], [c] + tail, c);
      }
      assert s[..|parts[0]|] == parts[0] && s[|parts[0]| + 1..] == tail;
    }
  }

  lemma NoSeparatorIndex(s: string, c: char)
    requires c !in s
    ensures IndexOf(s, c) == |s|
  {
  }

  lemma IndexOfAfterPrefix(p: string, t: string, c: char)
    requires c !in p && |t| > 0 && t[0] == c
    ensures IndexOf(p + t, c) == |p|
  {
    assert forall j :: 0 <= j < |p| ==> (p + t)[j] == p[j] && p[j] != c;
    assert (p + t)[|p|] == c;
  }

  // ---------------------------------------------------------------------
  // parseInt(s) with no radix

  /** Number of leading characters of `s` that are digits in `radix`. */
  function DigitRun(s: string, radix: int): (n: nat)
    ensures n <= |s|
    ensures forall i :: 0 <= i < n ==> DigitValue(s[i], radix) >= 0
    ensures n < |s| ==> DigitValue(s[n], radix) < 0
  {
    if |s| == 0 || DigitValue(s[0], radix) < 0 then 0 else 1 + DigitRun(s[1..], radix)
  }

  /** Value of a digit string in `radix`, most significant first. */
  function DigitsValue(s: string, radix: int): int
    requires forall i :: 0 <= i < |s| ==> DigitValue(s[i], radix) >= 0
    decreases |s|
  {
    if |s| == 0 then 0 else DigitsValue(s[..|s| - 1], radix) * radix + DigitValue(s[|s| - 1], radix)
  }

  /** Leading whitespace removed, as `parseInt` does before reading a number. */
  function TrimStart(s: string): (r: string)
    ensures |r| <= |s|
    ensures |r| > 0 ==> !IsJsWhitespace(r[0])
  {
    if |s| > 0 && IsJsWhitespace(s[0]) then TrimStart(s[1..]) else s
  }

  /**
   * `parseInt(s)`: skip whitespace, read an optional sign, switch to base 16
   * after a `0x`/`0X` prefix, and read the longest run of digits; no digits
   * is NaN, rendered as None.
   */
  function ParseInt(s: string): Option<int> {
    var t := TrimStart(s);
    if |t| > 0 && t[0] == '-' then
      (match ParseUnsigned(t[1..]) case None => None case Some(v) => Some(-v))
    else if |t| > 0 && t[0] == '+' then ParseUnsigned(t[1..])
    else ParseUnsigned(t)
  }

  /** The digits after the sign: hexadecimal after `0x`/`0X`, decimal otherwise. */
  function ParseUnsigned(u: string): Option<int> {
    var hex := |u| >= 2 && u[0] == '0' && (u[1] == 'x' || u[1] == 'X');
    var radix := if hex then 16 else 10;
    var body := if hex then u[2..] else u;
    var n := DigitRun(body, radix);
    if n == 0 then None else Some(DigitsValue(body[..n], radix))
  }

  lemma {:induction false} DigitsValueOfNat(n: nat)
    ensures forall i :: 0 <= i < |NatToString(n)| ==> DigitValue(NatToString(n)[i], 10) >= 0
    ensures DigitsValue(NatToString(n), 10) == n
    decreases n
  {
    var s := NatToString(n);
    if n >= 10 {
      DigitsValueOfNat(n / 10);
      assert s[..|s| - 1] == NatToString(n / 10);
    }
  }

  lemma {:induction false} DigitRunAll(s: string, radix: int)
    requires forall i :: 0 <= i < |s| ==> DigitValue(s[i], radix) >= 0
    ensures DigitRun(s, radix) == |s|
    decreases |s|
  {
    if |s| > 0 {
      DigitRunAll(s[1..], radix);
    }
  }

  lemma ParseUnsignedOfNat(m: nat)
    ensures ParseUnsigned(NatToString(m)) == Some(m)
  {
    var digits := NatToString(m);
    DigitsValueOfNat(m);
    DigitRunAll(digits, 10);
    assert !(|digits| >= 2 && digits[0] == '0');
    assert digits[..|digits|] == digits;
  }

  /** A run of decimal digits not starting with `0x` reads as its decimal value. */
  lemma ParseUnsignedDecimal(s: string)
    requires |s| >= 1 && forall i :: 0 <= i < |s| ==> IsDecimalDigit(s[i])
    ensures forall i :: 0 <= i < |s| ==> DigitValue(s[i], 10) >= 0
    ensures ParseUnsigned(s) == Some(DigitsValue(s, 10))
  {
    assert !(|s| >= 2 && (s[1] == 'x' || s[1] == 'X'));
    DigitRunAll(s, 10);
    assert s[..|s|] == s;
  }

  /** Leading zeros do not change the value of a digit string. */
  lemma {:induction false} LeadingZero(s: string)
    requires forall i :: 0 <= i < |s| ==> DigitValue(s[i], 10) >= 0
    ensures forall i :: 0 <= i < |"0" + s| ==> DigitValue(("0" + s)[i], 10) >= 0
    ensures DigitsValue("0" + s, 10) == DigitsValue(s, 10)
    decreases |s|
  {
    var t := "0" + s;
    if |s| == 0 {
      assert t[..0] == [];
    } else {
      LeadingZero(s[..|s| - 1]);
      assert t[..|t| - 1] == "0" + s[..|s| - 1];
    }
  }

  /** `parseInt` reads a non-negative decimal numeral back. */
  lemma ParseIntOfNatString(n: int)
    requires n >= 0
    ensures ParseInt(IntToString(n)) == Some(n)
  {
    var s := IntToString(n);
    assert s == NatToString(n);
    assert !IsJsWhitespace(s[0]) by {
      assert IsDecimalDigit(s[0]);
    }
    assert TrimStart(s) == s;
    assert s[0] != '-' && s[0] != '+';
    ParseUnsignedOfNat(n);
  }

  /** A minus sign before a decimal numeral negates its value. */
  lemma {:induction false} ParseIntNegated(m: nat)
    ensures ParseInt("-" + NatToString(m)) == Some(-(m as int))
  {
    var s := "-" + NatToString(m);
    assert TrimStart(s) == s by {
      assert !IsJsWhitespace(s[0]);
    }
    assert ParseUnsigned(s[1..]) == Some(m) by {
      assert s[1..] == NatToString(m);
      ParseUnsignedOfNat(m);
    }
  }


  /** `parseInt` reads a minus sign and a decimal numeral back as the negated value. */
  lemma {:induction false} ParseIntOfNegativeString(n: int)
    requires n < 0
    ensures ParseInt(IntToString(n)) == Some(n)
  {
    var m: nat := -n;
    ParseIntNegated(m);
    assert IntToString(n) == "-" + NatToString(m);
  }

  /** `parseInt(String(n))` gives `n` back. */
  lemma ParseIntOfIntToString(n: int)
    ensures ParseInt(IntToString(n)) == Some(n)
  {
    if n < 0 {
      ParseIntOfNegativeString(n);
    } else {
      ParseIntOfNatString(n);
    }
  }
}
