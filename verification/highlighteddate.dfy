/**
 * The highlighted-dates evaluator. Its seven rules read a rule bag exactly
 * as the disabled-dates rules do, so a date is highlighted when the
 * disabled-dates match (`RulesMatch`) holds on the highlighted bag, unless
 * the date is itself disabled and disabled dates are not to be included.
 */
module HighlightedDate {
  import opened Wrappers
  import opened JsText
  import opened DateUtils
  import opened CellUtils
  import opened DisabledDate
  import UseDisabledDates

  /** `has.includeDisabled`: defined, and true. */
  function IncludeDisabled(hl: Option<RuleBag>): (r: bool)
    ensures r <==> hl.Some? && hl.value.includeDisabled == Some(true)
  {
    IsDefined(hl, IncludeDisabledKey) && hl.value.includeDisabled.value
  }

  /** `has.ranges` of the highlighted bag. */
  function HasRanges(hl: Option<RuleBag>): (r: bool)
    ensures r <==> hl.Some? && hl.value.ranges.Set?
  {
    ArrayFields(hl.GetOr(EmptyBag));
    HasArray(hl, RangesKey)
  }

  /**
   * `isHighlightingNotPossible(date)`: the date is disabled, checked with
   * the same date utilities, and disabled dates are not included.
   */
  function IsHighlightingNotPossible(u: Utils, disabled: Option<RuleBag>, hl: Option<RuleBag>, t: int): (r: bool)
    ensures r <==> !IncludeDisabled(hl) && disabled.Some? && exists rule :: Fires(rule, u, disabled.value, t)
  {
    !IncludeDisabled(hl) && UseDisabledDates.IsDisabledDate(u, disabled, t)
  }

  /** `isDateHighlighted(date)`. */
  function IsDateHighlighted(u: Utils, disabled: Option<RuleBag>, hl: Option<RuleBag>, t: int): (r: bool)
    ensures r <==> hl.Some? && (exists rule :: Fires(rule, u, hl.value, t))
                   && (IncludeDisabled(hl) || !UseDisabledDates.IsDisabledDate(u, disabled, t))
  {
    if IsHighlightingNotPossible(u, disabled, hl, t) then false
    else hl.Some? && RulesMatch(u, hl.value, t)
  }

  /** Including disabled dates makes the disabled-dates option irrelevant. */
  lemma IncludeDisabledIgnoresDisabled(u: Utils, disabled: Option<RuleBag>, hl: Option<RuleBag>, t: int)
    requires IncludeDisabled(hl)
    ensures IsDateHighlighted(u, disabled, hl, t) == IsDateHighlighted(u, None, hl, t)
  {
  }

  // ---------------------------------------------------------------------
  // Range starts and ends

  datatype End = FromEnd | ToEnd

  function EndOf(rg: Range, which: End): Option<DateObj> {
    if which == FromEnd then rg.from else rg.to
  }

  /** The engine's error for `range.from.valueOf()` on a missing end. */
  const MissingEnd: JsError := TypeError("Cannot read properties of undefined (reading 'valueOf')")

  /** Where the scan stops at range `rg`: a missing end, or an end equal to `t`. */
  predicate Stops(rg: Range, which: End, t: int) {
    EndOf(rg, which).None? || EndOf(rg, which) == Some(At(t))
  }

  /**
   * The loop of `isHighlightStart` / `isHighlightEnd`: the first range whose
   * end is missing or equal to the date decides, and an Invalid Date end
   * equals nothing.
   */
  function ScanEnds(ranges: seq<Range>, which: End, t: int): (r: Result<bool, JsError>)
    ensures r == Success(true) <==>
      exists i :: 0 <= i < |ranges| && EndOf(ranges[i], which) == Some(At(t)) && forall j :: 0 <= j < i ==> !Stops(ranges[j], which, t)
    ensures r.Failure? <==>
      exists i :: 0 <= i < |ranges| && EndOf(ranges[i], which).None? && forall j :: 0 <= j < i ==> !Stops(ranges[j], which, t)
    ensures r == Success(false) <==> forall i :: 0 <= i < |ranges| ==> !Stops(ranges[i], which, t)
    ensures r.Failure? ==> r.error == MissingEnd
  {
    if |ranges| == 0 then Success(false)
    else
      var rest := ScanEnds(ranges[1..], which, t);
      assert forall i :: 1 <= i < |ranges| ==> ranges[1..][i - 1] == ranges[i];
      match EndOf(ranges[0], which)
      case None => Failure(MissingEnd)
      case Some(d) =>
        if d.At? && d.ms == t then Success(true)
        else
          assert !Stops(ranges[0], which, t);
          ScanHead(ranges, which, t, rest);
          rest
  }

  /** Prepending a range where the scan does not stop leaves the outcome alone. */
  lemma ScanHead(ranges: seq<Range>, which: End, t: int, rest: Result<bool, JsError>)
    requires |ranges| > 0 && !Stops(ranges[0], which, t)
    requires rest == Success(true) <==>
      exists i :: 0 <= i < |ranges[1..]| && EndOf(ranges[1..][i], which) == Some(At(t)) && forall j :: 0 <= j < i ==> !Stops(ranges[1..][j], which, t)
    requires rest.Failure? <==>
      exists i :: 0 <= i < |ranges[1..]| && EndOf(ranges[1..][i], which).None? && forall j :: 0 <= j < i ==> !Stops(ranges[1..][j], which, t)
    ensures rest == Success(true) <==>
      exists i :: 0 <= i < |ranges| && EndOf(ranges[i], which) == Some(At(t)) && forall j :: 0 <= j < i ==> !Stops(ranges[j], which, t)
    ensures rest.Failure? <==>
      exists i :: 0 <= i < |ranges| && EndOf(ranges[i], which).None? && forall j :: 0 <= j < i ==> !Stops(ranges[j], which, t)
  {
    if rest == Success(true) {
      var i :| 0 <= i < |ranges[1..]| && EndOf(ranges[1..][i], which) == Some(At(t)) && forall j :: 0 <= j < i ==> !Stops(ranges[1..][j], which, t);
      assert forall j :: 0 <= j < i + 1 ==> !Stops(ranges[j], which, t) by {
        forall j | 0 <= j < i + 1 ensures !Stops(ranges[j], which, t) {
          if j > 0 { assert ranges[j] == ranges[1..][j - 1]; }
        }
      }
      assert ranges[i + 1] == ranges[1..][i];
    }
    if exists i :: 0 <= i < |ranges| && EndOf(ranges[i], which) == Some(At(t)) && forall j :: 0 <= j < i ==> !Stops(ranges[j], which, t) {
      var i :| 0 <= i < |ranges| && EndOf(ranges[i], which) == Some(At(t)) && forall j :: 0 <= j < i ==> !Stops(ranges[j], which, t);
      assert i > 0;
      assert forall j :: 0 <= j < i - 1 ==> ranges[1..][j] == ranges[j + 1];
      assert EndOf(ranges[1..][i - 1], which) == Some(At(t));
    }
    if rest.Failure? {
      var i :| 0 <= i < |ranges[1..]| && EndOf(ranges[1..][i], which).None? && forall j :: 0 <= j < i ==> !Stops(ranges[1..][j], which, t);
      assert forall j :: 0 <= j < i + 1 ==> !Stops(ranges[j], which, t) by {
        forall j | 0 <= j < i + 1 ensures !Stops(ranges[j], which, t) {
          if j > 0 { assert ranges[j] == ranges[1..][j - 1]; }
        }
      }
      assert ranges[i + 1] == ranges[1..][i];
    }
    if exists i :: 0 <= i < |ranges| && EndOf(ranges[i], which).None? && forall j :: 0 <= j < i ==> !Stops(ranges[j], which, t) {
      var i :| 0 <= i < |ranges| && EndOf(ranges[i], which).None? && forall j :: 0 <= j < i ==> !Stops(ranges[j], which, t);
      assert i > 0;
      assert forall j :: 0 <= j < i - 1 ==> ranges[1..][j] == ranges[j + 1];
      assert EndOf(ranges[1..][i - 1], which).None?;
    }
  }

  /** `isHighlightStart(date)`: false unless ranges are set and the date is highlighted. */
  function IsHighlightStart(u: Utils, disabled: Option<RuleBag>, hl: Option<RuleBag>, t: int): (r: Result<bool, JsError>)
    ensures !HasRanges(hl) || !IsDateHighlighted(u, disabled, hl, t) ==> r == Success(false)
    ensures r == Success(true) ==> IsDateHighlighted(u, disabled, hl, t)
    ensures r == Success(true) ==> SomeEndAt(hl.value.ranges.value, FromEnd, t)
  {
    if !HasRanges(hl) || !IsDateHighlighted(u, disabled, hl, t) then Success(false)
    else ScanEnds(hl.value.ranges.value, FromEnd, t)
  }

  /** `isHighlightEnd(date)`: the same scan over the `to` ends. */
  function IsHighlightEnd(u: Utils, disabled: Option<RuleBag>, hl: Option<RuleBag>, t: int): (r: Result<bool, JsError>)
    ensures !HasRanges(hl) || !IsDateHighlighted(u, disabled, hl, t) ==> r == Success(false)
    ensures r == Success(true) ==> IsDateHighlighted(u, disabled, hl, t)
    ensures r == Success(true) ==> SomeEndAt(hl.value.ranges.value, ToEnd, t)
  {
    if !HasRanges(hl) || !IsDateHighlighted(u, disabled, hl, t) then Success(false)
    else ScanEnds(hl.value.ranges.value, ToEnd, t)
  }

  /** Some range has its `which` end at `t`. */
  predicate SomeEndAt(ranges: seq<Range>, which: End, t: int) {
    exists i :: 0 <= i < |ranges| && EndOf(ranges[i], which) == Some(At(t))
  }

  /** Every range has both ends defined. */
  predicate EndsDefined(ranges: seq<Range>) {
    forall i :: 0 <= i < |ranges| ==> ranges[i].from.Some? && ranges[i].to.Some?
  }

  /**
   * With every range end defined the scans never throw, and a highlighted
   * date is a range start exactly when some range starts at it (likewise
   * for ends).
   */
  lemma DefinedEndsDecide(u: Utils, disabled: Option<RuleBag>, hl: Option<RuleBag>, t: int)
    requires hl.Some? && hl.value.ranges.Set? && EndsDefined(hl.value.ranges.value)
    ensures IsHighlightStart(u, disabled, hl, t).Success?
    ensures IsHighlightEnd(u, disabled, hl, t).Success?
    ensures IsHighlightStart(u, disabled, hl, t).value <==>
      IsDateHighlighted(u, disabled, hl, t) && SomeEndAt(hl.value.ranges.value, FromEnd, t)
    ensures IsHighlightEnd(u, disabled, hl, t).value <==>
      IsDateHighlighted(u, disabled, hl, t) && SomeEndAt(hl.value.ranges.value, ToEnd, t)
  {
    var ranges := hl.value.ranges.value;
    if IsDateHighlighted(u, disabled, hl, t) {
      FirstMatch(ranges, FromEnd, t);
      FirstMatch(ranges, ToEnd, t);
    }
  }

  /** With every end defined, the scan finds a match exactly when one exists. */
  lemma FirstMatch(ranges: seq<Range>, which: End, t: int)
    requires EndsDefined(ranges)
    ensures ScanEnds(ranges, which, t).Success?
    ensures ScanEnds(ranges, which, t).value <==> SomeEndAt(ranges, which, t)
  {
    var r := ScanEnds(ranges, which, t);
    if exists i :: 0 <= i < |ranges| && EndOf(ranges[i], which) == Some(At(t)) {
      var i :| 0 <= i < |ranges| && EndOf(ranges[i], which) == Some(At(t));
      var k := FirstStop(ranges, which, t, i);
      assert EndOf(ranges[k], which) == Some(At(t));
    }
  }

  /** The first range at or before `i` where the scan stops. */
  lemma FirstStop(ranges: seq<Range>, which: End, t: int, i: int) returns (k: int)
    requires 0 <= i < |ranges| && Stops(ranges[i], which, t)
    ensures 0 <= k <= i && Stops(ranges[k], which, t)
    ensures forall j :: 0 <= j < k ==> !Stops(ranges[j], which, t)
    decreases i
  {
    if exists j :: 0 <= j < i && Stops(ranges[j], which, t) {
      var j :| 0 <= j < i && Stops(ranges[j], which, t);
      k := FirstStop(ranges, which, t, j);
    } else {
      k := i;
    }
  }
}
