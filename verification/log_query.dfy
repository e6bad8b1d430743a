/**
 * The exercise-log query of `GET /api/users/:id/logs`: normalise the
 * optional `from`, `to` and `limit` parameters, keep the entries dated on or
 * after `from`, then those on or before `to`, reverse them so the newest
 * comes first, cut the result to `limit`, and report each entry without its
 * internal id together with their number.
 */
module LogQuery {
  import opened Wrappers
  import opened JsNumbers
  import opened Dates
  import opened Exercises
  import opened Sequences

  /** The query string of a log request; every parameter may be missing. */
  datatype LogRequest = LogRequest(from: Option<string>, to: Option<string>, limit: Option<string>)

  /** The response body `{ username, count, _id, log }`. */
  datatype LogResponse = LogResponse(username: string, count: nat, id: Id, log: seq<LogItem>)

  /** `parsedLimit`, then `limitValue`: a missing or empty parameter is null,
      anything else goes through `parseInt`, and only a positive result is
      kept (NaN, zero and negative numbers become null). */
  function NormaliseLimit(raw: Option<string>): (limit: Option<int>)
    ensures limit.Some? ==> limit.value > 0
    ensures limit.Some? <==> IsTruthy(raw) && ParseInt(raw.value).Int? && ParseInt(raw.value).value > 0
    ensures limit.Some? ==> ParseInt(raw.value) == Int(limit.value)
  {
    var parsed: Option<IntOrNaN> := if IsTruthy(raw) then Some(ParseInt(raw.value)) else None;
    match parsed
    case Some(Int(n)) => if n > 0 then Some(n) else None
    case _ => None
  }

  /** The test of the `from` filter. */
  function AfterBound(from: Timestamp): Exercise -> bool {
    (e: Exercise) => OnOrAfter(e.date, from)
  }

  /** The test of the `to` filter. */
  function BeforeBound(to: Timestamp): Exercise -> bool {
    (e: Exercise) => OnOrBefore(e.date, to)
  }

  /** The `from` step: with a bound, every entry dated on or after it is kept
      as often as it is stored and no other entry is; no filtering without a bound. */
  function KeepFrom(xs: seq<Exercise>, from: Option<Timestamp>): (r: seq<Exercise>)
    ensures from.Some? ==> forall i :: 0 <= i < |r| ==> OnOrAfter(r[i].date, from.value)
    ensures from.Some? ==> forall e :: multiset(r)[e] == if OnOrAfter(e.date, from.value) then multiset(xs)[e] else 0
    ensures from.None? ==> r == xs
  {
    if from.Some? then
      FilterCounts(xs, AfterBound(from.value));
      Filter(xs, AfterBound(from.value))
    else xs
  }

  /** The `to` step: with a bound, every entry dated on or before it is kept
      as often as it is stored and no other entry is; no filtering without a bound. */
  function KeepTo(xs: seq<Exercise>, to: Option<Timestamp>): (r: seq<Exercise>)
    ensures to.Some? ==> forall i :: 0 <= i < |r| ==> OnOrBefore(r[i].date, to.value)
    ensures to.Some? ==> forall e :: multiset(r)[e] == if OnOrBefore(e.date, to.value) then multiset(xs)[e] else 0
    ensures to.None? ==> r == xs
  {
    if to.Some? then
      FilterCounts(xs, BeforeBound(to.value));
      Filter(xs, BeforeBound(to.value))
    else xs
  }

  /** The `limit` step: `slice(0, limit)` when a limit survived normalisation. */
  function Truncate<T>(xs: seq<T>, limit: Option<int>): (r: seq<T>)
    requires limit.Some? ==> limit.value > 0
    ensures limit.Some? ==> |r| <= limit.value
    ensures |r| <= |xs| && r == xs[..|r|]
    ensures |r| == |xs| || (limit.Some? && |r| == limit.value)
  {
    if limit.Some? then Prefix(xs, limit.value) else xs
  }

  /** The log's `map`: every entry without its internal id, in the same order. */
  function Project(xs: seq<Exercise>): (r: seq<LogItem>)
    ensures |r| == |xs|
    ensures forall i {:trigger r[i]} :: 0 <= i < |xs| ==> r[i] == Strip(xs[i])
  {
    if |xs| == 0 then [] else [Strip(xs[0])] + Project(xs[1..])
  }

  /** The `log` array for already normalised parameters. */
  function BuildLog(xs: seq<Exercise>, from: Option<Timestamp>, to: Option<Timestamp>,
                    limit: Option<int>): (log: seq<LogItem>)
    requires limit.Some? ==> limit.value > 0
    ensures |log| <= |xs|
    ensures limit.Some? ==> |log| <= limit.value
  {
    Project(Truncate(Reverse(KeepTo(KeepFrom(xs, from), to)), limit))
  }

  /** The response of the log route for a user the store found. */
  function Logs(user: User, request: LogRequest, parse: DateParser): (r: LogResponse)
    ensures r.username == user.username && r.id == user.id
    ensures r.count == |r.log| <= |user.exercises|
  {
    var log := BuildLog(user.exercises, FormatDate(request.from, parse), FormatDate(request.to, parse),
                        NormaliseLimit(request.limit));
    LogResponse(user.username, |log|, user.id, log)
  }
}
