/**
 * Dates as the exercise tracker handles them. A JavaScript `Date` is a time
 * value in milliseconds since the epoch, or the invalid date (NaN). Stored
 * exercise dates are the text `Date.prototype.toDateString` produces, which
 * names a calendar day; reading that text back with `new Date(text)` gives
 * the midnight that starts the day. The host's date parser itself is a
 * parameter, and the host time zone is taken to be UTC.
 */
module Dates {
  import opened Wrappers

  /** Milliseconds since the epoch. */
  type Timestamp = int

  /** The host's generic date parser, `new Date(text)`: None is the invalid date. */
  type DateParser = string -> Option<Timestamp>

  const MsPerDay: int := 86_400_000

  /** What `toDateString` writes: the day number of a valid date (days since
      the epoch, so "Thu Jan 01 1970" is Day(0)), or the text "Invalid Date". */
  datatype DateText = Day(day: int) | InvalidDate

  /** `new Date(...).toDateString()`: the day that contains the instant. */
  function ToDateString(t: Option<Timestamp>): (d: DateText)
    ensures d.Day? <==> t.Some?
    ensures d.Day? ==> d.day * MsPerDay <= t.value < d.day * MsPerDay + MsPerDay
  {
    match t
    case Some(ms) => Day(ms / MsPerDay)
    case None => InvalidDate
  }

  /** `new Date(text)` applied to a stored date text. */
  function ReadBack(d: DateText): (t: Option<Timestamp>)
    ensures ToDateString(t) == d
    ensures t.Some? ==> t.value % MsPerDay == 0
  {
    match d
    case Day(n) => Some(n * MsPerDay)
    case InvalidDate => None
  }

  /** `formatDate` (with `isValidDate`): a present, non-empty text the parser
      accepts becomes a date; anything else becomes null. */
  function FormatDate(raw: Option<string>, parse: DateParser): (r: Option<Timestamp>)
    ensures r.Some? <==> IsTruthy(raw) && parse(raw.value).Some?
    ensures r.Some? ==> r == parse(raw.value)
  {
    if IsTruthy(raw) && parse(raw.value).Some? then parse(raw.value) else None
  }

  /** `new Date(date) >= bound`; a comparison with NaN is false. */
  predicate OnOrAfter(d: DateText, bound: Timestamp) {
    ReadBack(d).Some? && ReadBack(d).value >= bound
  }

  /** `new Date(date) <= bound`; a comparison with NaN is false. */
  predicate OnOrBefore(d: DateText, bound: Timestamp) {
    ReadBack(d).Some? && ReadBack(d).value <= bound
  }

  /** The comparisons read a stored day back as its midnight, and an
      "Invalid Date" is neither after nor before any bound. */
  lemma DayComparisons(d: DateText, bound: Timestamp)
    ensures OnOrAfter(d, bound) <==> d.Day? && d.day * MsPerDay >= bound
    ensures OnOrBefore(d, bound) <==> d.Day? && d.day * MsPerDay <= bound
  {
  }

  /** A window whose two bounds are the same midnight holds exactly that day. */
  lemma SameMidnightWindowIsOneDay(d: DateText, n: int)
    ensures OnOrAfter(d, n * MsPerDay) && OnOrBefore(d, n * MsPerDay) <==> d == Day(n)
  {
    if d.Day? && OnOrAfter(d, n * MsPerDay) && OnOrBefore(d, n * MsPerDay) {
      assert d.day * MsPerDay == n * MsPerDay;
    }
  }

  /** A `from` bound at midnight keeps every entry recorded on that day or later. */
  lemma MidnightFromKeepsSameDay(t: Timestamp, bound: Timestamp)
    requires bound % MsPerDay == 0 && bound <= t
    ensures OnOrAfter(ToDateString(Some(t)), bound)
  {
    var d := ToDateString(Some(t));
    assert bound == (bound / MsPerDay) * MsPerDay;
    assert bound / MsPerDay <= d.day;
  }

  /** A `from` bound after midnight drops entries recorded earlier on the same
      day, even at a later hour: stored dates keep only the day. */
  lemma MidDayFromDropsSameDay(t: Timestamp, bound: Timestamp)
    requires bound % MsPerDay != 0 && t / MsPerDay == bound / MsPerDay
    ensures !OnOrAfter(ToDateString(Some(t)), bound)
  {
  }
}
