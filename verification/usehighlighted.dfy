/**
 * The highlighted-dates composable: the three calendar-facing questions,
 * each `false` without a highlighted option.
 */
module UseHighlighted {
  import opened Wrappers
  import opened JsText
  import opened DateUtils
  import opened CellUtils
  import opened DisabledDate
  import UseDisabledDates
  import HighlightedDate

  /** The composable's options: the date utilities and the disabled-dates option. */
  datatype HighlightedOptions = HighlightedOptions(utils: Utils, disabledDates: Option<RuleBag>)

  /** The defaults: local-time utilities and no disabled dates. */
  function DefaultOptions(localOffset: int): HighlightedOptions {
    HighlightedOptions(Utils(false, localOffset), None)
  }

  /** `isHighlightedDate(date)`. */
  function IsHighlightedDate(hl: Option<RuleBag>, opts: HighlightedOptions, t: int): (r: bool)
    ensures r <==> hl.Some? && (exists rule :: Fires(rule, opts.utils, hl.value, t))
                   && (HighlightedDate.IncludeDisabled(hl) || !UseDisabledDates.IsDisabledDate(opts.utils, opts.disabledDates, t))
  {
    if hl.None? then false
    else HighlightedDate.IsDateHighlighted(opts.utils, opts.disabledDates, hl, t)
  }

  /** `isHighlightEnd(date)`. */
  function IsHighlightEnd(hl: Option<RuleBag>, opts: HighlightedOptions, t: int): (r: Result<bool, JsError>)
    ensures hl.None? ==> r == Success(false)
    ensures r == Success(true) ==> IsHighlightedDate(hl, opts, t)
    ensures r == Success(true) ==> hl.Some? && hl.value.ranges.Set?
    ensures r == Success(true) ==> HighlightedDate.SomeEndAt(hl.value.ranges.value, HighlightedDate.ToEnd, t)
    ensures hl.Some? && hl.value.ranges.Set? && HighlightedDate.EndsDefined(hl.value.ranges.value) ==>
      r.Success? && (r.value <==> IsHighlightedDate(hl, opts, t) && HighlightedDate.SomeEndAt(hl.value.ranges.value, HighlightedDate.ToEnd, t))
  {
    if hl.None? then Success(false)
    else
      assert IsHighlightedDate(hl, opts, t) == HighlightedDate.IsDateHighlighted(opts.utils, opts.disabledDates, hl, t);
      if hl.value.ranges.Set? && HighlightedDate.EndsDefined(hl.value.ranges.value) then
        HighlightedDate.DefinedEndsDecide(opts.utils, opts.disabledDates, hl, t);
        HighlightedDate.IsHighlightEnd(opts.utils, opts.disabledDates, hl, t)
      else
        HighlightedDate.IsHighlightEnd(opts.utils, opts.disabledDates, hl, t)
  }

  /** `isHighlightStart(date)`. */
  function IsHighlightStart(hl: Option<RuleBag>, opts: HighlightedOptions, t: int): (r: Result<bool, JsError>)
    ensures hl.None? ==> r == Success(false)
    ensures r == Success(true) ==> IsHighlightedDate(hl, opts, t)
    ensures r == Success(true) ==> hl.Some? && hl.value.ranges.Set?
    ensures r == Success(true) ==> HighlightedDate.SomeEndAt(hl.value.ranges.value, HighlightedDate.FromEnd, t)
    ensures hl.Some? && hl.value.ranges.Set? && HighlightedDate.EndsDefined(hl.value.ranges.value) ==>
      r.Success? && (r.value <==> IsHighlightedDate(hl, opts, t) && HighlightedDate.SomeEndAt(hl.value.ranges.value, HighlightedDate.FromEnd, t))
  {
    if hl.None? then Success(false)
    else
      assert IsHighlightedDate(hl, opts, t) == HighlightedDate.IsDateHighlighted(opts.utils, opts.disabledDates, hl, t);
      if hl.value.ranges.Set? && HighlightedDate.EndsDefined(hl.value.ranges.value) then
        HighlightedDate.DefinedEndsDecide(opts.utils, opts.disabledDates, hl, t);
        HighlightedDate.IsHighlightStart(opts.utils, opts.disabledDates, hl, t)
      else
        HighlightedDate.IsHighlightStart(opts.utils, opts.disabledDates, hl, t)
  }

  /** With the default options nothing is disabled, so the highlighted rules alone decide. */
  lemma DefaultsNeverGate(localOffset: int, hl: Option<RuleBag>, t: int)
    ensures IsHighlightedDate(hl, DefaultOptions(localOffset), t) <==> hl.Some? && RulesMatch(Utils(false, localOffset), hl.value, t)
  {
  }

  /** A disabled date is highlighted only when the highlighted option includes disabled dates. */
  lemma DisabledHighlightedOnlyWhenIncluded(hl: Option<RuleBag>, opts: HighlightedOptions, t: int)
    requires opts.disabledDates.Some? && RulesMatch(opts.utils, opts.disabledDates.value, t)
    ensures IsHighlightedDate(hl, opts, t) <==> hl.Some? && hl.value.includeDisabled == Some(true) && RulesMatch(opts.utils, hl.value, t)
  {
  }
}
