/**
 * Users and their exercise entries. An entry is created from the request
 * fields by the exercise handler and stored as a sub-document that the
 * store gives an internal id; the log reports it without that id.
 */
module Exercises {
  import opened Wrappers
  import opened JsNumbers
  import opened Dates

  /** The store's opaque identifiers. */
  type Id = nat

  /** The three fields of an entry as the handler builds it and the log reports it. */
  datatype LogItem = LogItem(description: string, duration: IntOrNaN, date: DateText)

  /** A stored entry: the same three fields plus the internal `_id`. */
  datatype Exercise = Exercise(id: Id, description: string, duration: IntOrNaN, date: DateText)

  /** A user and their entries, in the order they were appended. */
  datatype User = User(id: Id, username: string, exercises: seq<Exercise>)

  /** The store's sub-document for a new entry, under the id it assigns. */
  function Attach(id: Id, item: LogItem): (e: Exercise)
    ensures e.id == id
  {
    Exercise(id, item.description, item.duration, item.date)
  }

  /** The log's `({ _id, ...rest }) => rest`: the entry without its internal id. */
  function Strip(e: Exercise): (item: LogItem)
    ensures Attach(e.id, item) == e
  {
    LogItem(e.description, e.duration, e.date)
  }

  /** JavaScript's `String(v)` for a request field that may be missing. */
  function FieldText(raw: Option<string>): string {
    raw.GetOr("undefined")
  }

  /** The `newExercise` record: the duration goes through `parseInt`, and
      the date is the day of the given date text, or of `now` when the text
      is missing or empty. A present text the parser rejects is stored as
      "Invalid Date"; it is not replaced by today. */
  function NewExercise(description: string, duration: Option<string>, date: Option<string>,
                       now: Timestamp, parse: DateParser): (item: LogItem)
    ensures item.description == description
    ensures item.duration == ParseInt(FieldText(duration))
    ensures item.date == InvalidDate <==> IsTruthy(date) && parse(date.value).None?
    ensures !IsTruthy(date) ==>
              ReadBack(item.date).Some? && ReadBack(item.date).value <= now < ReadBack(item.date).value + MsPerDay
    ensures IsTruthy(date) && parse(date.value).Some? ==>
              ReadBack(item.date).Some? &&
              ReadBack(item.date).value <= parse(date.value).value < ReadBack(item.date).value + MsPerDay
  {
    LogItem(description,
            ParseInt(FieldText(duration)),
            if IsTruthy(date) then ToDateString(parse(date.value)) else ToDateString(Some(now)))
  }

  /** A missing duration is `parseInt(undefined)`, which is NaN. */
  lemma MissingDurationIsNaN(description: string, date: Option<string>, now: Timestamp, parse: DateParser)
    ensures NewExercise(description, None, date, now, parse).duration == NaN
  {
    var s := "undefined";
    assert !IsStrWhiteSpace(s[0]) && !IsRadixDigit(s[0], 10);
    assert TrimStart(s) == s;
    assert DigitRunLength(s, 10) == 0;
  }
}
