/**
 * The rule bag shared by the disabled-dates and highlighted-dates options,
 * and the presence tests the picker runs on it before using a rule.
 *
 * A property of the bag is `Unset` when it is undefined or null,
 * `Malformed` when it holds something of the wrong kind (a string where a
 * Date is expected, an object where an array is expected), and `Set` when
 * it holds a value of the expected kind.
 */
module CellUtils {
  import opened Wrappers
  import opened Calendar
  import opened DateUtils

  datatype Prop<T> = Unset | Malformed | Set(value: T)

  /** A `{from, to}` range; an end is `None` when undefined or null. */
  datatype Range = Range(from: Option<DateObj>, to: Option<DateObj>)

  /** The shape of a disabled-dates or highlighted-dates option. */
  datatype RuleBag = RuleBag(
    to: Prop<DateObj>,
    from: Prop<DateObj>,
    ranges: Prop<seq<Range>>,
    customPredictor: Option<int -> bool>,
    dates: Prop<seq<Option<DateObj>>>,
    days: Prop<seq<int>>,
    daysOfMonth: Prop<seq<int>>,
    includeDisabled: Option<bool>)

  const EmptyBag: RuleBag := RuleBag(Unset, Unset, Unset, None, Unset, Unset, Unset, None)

  /** The property names the presence tests are called with. */
  datatype Key = ToKey | FromKey | RangesKey | CustomPredictorKey | DatesKey | DaysKey | DaysOfMonthKey | IncludeDisabledKey

  function DateShape(p: Prop<DateObj>): JsValue {
    match p
    case Unset => Nullish
    case Malformed => OtherValue
    case Set(d) => DateValue(d)
  }

  function ArrayShape<T>(p: Prop<T>): JsValue {
    match p
    case Unset => Nullish
    case Malformed => OtherValue
    case Set(_) => ArrayValue
  }

  function OptionShape<T>(p: Option<T>): JsValue {
    if p.None? then Nullish else OtherValue
  }

  /** `obj[prop]` as the type tests see it. */
  function ShapeOf(bag: RuleBag, k: Key): JsValue {
    match k
    case ToKey => DateShape(bag.to)
    case FromKey => DateShape(bag.from)
    case RangesKey => ArrayShape(bag.ranges)
    case CustomPredictorKey => OptionShape(bag.customPredictor)
    case DatesKey => ArrayShape(bag.dates)
    case DaysKey => ArrayShape(bag.days)
    case DaysOfMonthKey => ArrayShape(bag.daysOfMonth)
    case IncludeDisabledKey => OptionShape(bag.includeDisabled)
  }

  /** `isDefined(obj, prop)`: the object and the property are both neither null nor undefined. */
  predicate IsDefined(obj: Option<RuleBag>, k: Key) {
    obj.Some? && ShapeOf(obj.value, k) != Nullish
  }

  /** `hasArray(obj, prop)`: defined, and an array. */
  function HasArray(obj: Option<RuleBag>, k: Key): (r: bool)
    ensures r ==> IsDefined(obj, k)
    ensures r ==> ShapeOf(obj.value, k) == ArrayValue
  {
    IsDefined(obj, k) && ShapeOf(obj.value, k).ArrayValue?
  }

  /**
   * `hasDate(obj, prop)` for the cell utilities built over `utils`
   * (`None` when undefined): defined, and a Date whose time is not NaN.
   */
  function HasDate(utils: Option<Utils>, obj: Option<RuleBag>, k: Key): (r: bool)
    ensures r ==> utils.Some? && IsDefined(obj, k)
    ensures r ==> ShapeOf(obj.value, k).DateValue? && ShapeOf(obj.value, k).date.At?
  {
    utils.Some? && IsDefined(obj, k) && IsValidDate(ShapeOf(obj.value, k))
  }

  /** The day, month and year of a rule date; all undefined when there is none. */
  datatype DayMonthYear = DayMonthYear(day: Option<int>, month: Option<int>, year: Option<int>)

  /** `dayMonthYear(obj, prop)`: the mode fields of the date rule, read with the same utilities. */
  function GetDayMonthYear(utils: Option<Utils>, obj: Option<RuleBag>, k: Key): (r: DayMonthYear)
    ensures !HasDate(utils, obj, k) ==> r == DayMonthYear(None, None, None)
    ensures HasDate(utils, obj, k) ==>
      var t := ShapeOf(obj.value, k).date.ms;
      r == DayMonthYear(Some(GetDate(utils.value, t)), Some(GetMonth(utils.value, t)), Some(GetFullYear(utils.value, t)))
    ensures HasDate(utils, obj, k) ==>
      r.day.Some? && r.month.Some? && r.year.Some? && ValidCivil(Civil(r.year.value, r.month.value, r.day.value))
  {
    if !HasDate(utils, obj, k) then DayMonthYear(None, None, None)
    else
      var u := utils.value;
      var t := ShapeOf(obj.value, k).date.ms;
      DaysRoundTrip(DayIndex(u, t));
      DayMonthYear(Some(GetDate(u, t)), Some(GetMonth(u, t)), Some(GetFullYear(u, t)))
  }

  // ---------------------------------------------------------------------
  // The presence tests read field by field

  /** `isDefined` on each property of a present bag. */
  lemma DefinedFields(bag: RuleBag)
    ensures IsDefined(Some(bag), ToKey) <==> !bag.to.Unset?
    ensures IsDefined(Some(bag), FromKey) <==> !bag.from.Unset?
    ensures IsDefined(Some(bag), RangesKey) <==> !bag.ranges.Unset?
    ensures IsDefined(Some(bag), CustomPredictorKey) <==> bag.customPredictor.Some?
    ensures IsDefined(Some(bag), DatesKey) <==> !bag.dates.Unset?
    ensures IsDefined(Some(bag), DaysKey) <==> !bag.days.Unset?
    ensures IsDefined(Some(bag), DaysOfMonthKey) <==> !bag.daysOfMonth.Unset?
    ensures IsDefined(Some(bag), IncludeDisabledKey) <==> bag.includeDisabled.Some?
    ensures forall k :: !IsDefined(None, k)
  {
  }

  /** `hasArray` holds exactly for the array properties that hold an array. */
  lemma ArrayFields(bag: RuleBag)
    ensures HasArray(Some(bag), RangesKey) <==> bag.ranges.Set?
    ensures HasArray(Some(bag), DatesKey) <==> bag.dates.Set?
    ensures HasArray(Some(bag), DaysKey) <==> bag.days.Set?
    ensures HasArray(Some(bag), DaysOfMonthKey) <==> bag.daysOfMonth.Set?
    ensures !HasArray(Some(bag), ToKey) && !HasArray(Some(bag), FromKey)
    ensures !HasArray(Some(bag), CustomPredictorKey) && !HasArray(Some(bag), IncludeDisabledKey)
  {
  }

  /** `hasDate` holds exactly for a `to` or `from` holding a Date with a real time value. */
  lemma DateFields(utils: Option<Utils>, bag: RuleBag)
    ensures HasDate(utils, Some(bag), ToKey) <==> utils.Some? && bag.to.Set? && bag.to.value.At?
    ensures HasDate(utils, Some(bag), FromKey) <==> utils.Some? && bag.from.Set? && bag.from.value.At?
    ensures forall k :: k != ToKey && k != FromKey ==> !HasDate(utils, Some(bag), k)
    ensures HasDate(utils, Some(bag), ToKey) ==> IsDefined(Some(bag), ToKey)
  {
  }
}
