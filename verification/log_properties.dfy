/**
 * What the log query promises, stated against an independent description:
 * the log is the newest-first list of the stored entries that lie in the
 * date window, cut to the limit.
 */
module LogProperties {
  import opened Wrappers
  import opened JsNumbers
  import opened Dates
  import opened Exercises
  import opened Sequences
  import opened LogQuery

  /** An entry lies in the window an optional `from` and `to` describe. */
  predicate InWindow(date: DateText, from: Option<Timestamp>, to: Option<Timestamp>) {
    && (from.None? || OnOrAfter(date, from.value))
    && (to.None? || OnOrBefore(date, to.value))
  }

  function WindowTest(from: Option<Timestamp>, to: Option<Timestamp>): Exercise -> bool {
    (e: Exercise) => InWindow(e.date, from, to)
  }

  /** The stored entries in the window, in stored order. */
  function Matching(xs: seq<Exercise>, from: Option<Timestamp>, to: Option<Timestamp>): seq<Exercise> {
    Filter(xs, WindowTest(from, to))
  }

  /** The positions of the stored entries that lie in the window. */
  function WindowPositions(xs: seq<Exercise>, from: Option<Timestamp>, to: Option<Timestamp>): set<nat> {
    set j: nat | j < |xs| && InWindow(xs[j].date, from, to)
  }

  /** The two filter steps together keep exactly the entries in the window. */
  lemma KeepFromToIsWindow(xs: seq<Exercise>, from: Option<Timestamp>, to: Option<Timestamp>)
    ensures KeepTo(KeepFrom(xs, from), to) == Matching(xs, from, to)
  {
    var w := WindowTest(from, to);
    if from.Some? && to.Some? {
      FilterFilter(xs, AfterBound(from.value), BeforeBound(to.value), w);
    } else if from.Some? {
      FilterFilter(xs, AfterBound(from.value), (e: Exercise) => true, w);
      FilterAll(Filter(xs, AfterBound(from.value)), (e: Exercise) => true);
    } else if to.Some? {
      FilterFilter(xs, (e: Exercise) => true, BeforeBound(to.value), w);
      FilterAll(xs, (e: Exercise) => true);
    } else {
      FilterAll(xs, w);
    }
  }

  /** Projecting and truncating commute. */
  lemma ProjectTruncate(xs: seq<Exercise>, limit: Option<int>)
    requires limit.Some? ==> limit.value > 0
    ensures Project(Truncate(xs, limit)) == Truncate(Project(xs), limit)
  {
    var a := Project(Truncate(xs, limit));
    var b := Truncate(Project(xs), limit);
    assert |a| == |b|;
    assert forall i :: 0 <= i < |a| ==> a[i] == b[i];
  }

  /** The log is the newest-first list of the entries in the window, cut to
      the limit. */
  lemma LogIsNewestMatchingFirst(xs: seq<Exercise>, from: Option<Timestamp>, to: Option<Timestamp>,
                                 limit: Option<int>)
    requires limit.Some? ==> limit.value > 0
    ensures BuildLog(xs, from, to, limit) == Truncate(Project(Reverse(Matching(xs, from, to))), limit)
  {
    KeepFromToIsWindow(xs, from, to);
    ProjectTruncate(Reverse(Matching(xs, from, to)), limit);
  }

  /** Reversing, dropping ids and truncating keep every date of the input. */
  lemma DatesSurviveView(m: seq<Exercise>, limit: Option<int>, from: Option<Timestamp>, to: Option<Timestamp>)
    requires limit.Some? ==> limit.value > 0
    requires forall k :: 0 <= k < |m| ==> InWindow(m[k].date, from, to)
    ensures forall i :: 0 <= i < |Truncate(Project(Reverse(m)), limit)| ==>
              InWindow(Truncate(Project(Reverse(m)), limit)[i].date, from, to)
  {
    var r := Reverse(m);
    var p := Project(r);
    var log := Truncate(p, limit);
    forall i | 0 <= i < |log|
      ensures InWindow(log[i].date, from, to)
    {
      assert log[i] == p[i];
      assert p[i] == Strip(r[i]);
      assert r[i] == m[|m| - 1 - i];
    }
  }

  /** Every reported entry lies in the window: on or after a valid `from`
      and on or before a valid `to`. An entry stored as "Invalid Date" is
      never reported once either bound is set. */
  lemma LogWithinWindow(xs: seq<Exercise>, from: Option<Timestamp>, to: Option<Timestamp>,
                        limit: Option<int>)
    requires limit.Some? ==> limit.value > 0
    ensures forall i :: 0 <= i < |BuildLog(xs, from, to, limit)| ==>
              InWindow(BuildLog(xs, from, to, limit)[i].date, from, to)
  {
    LogIsNewestMatchingFirst(xs, from, to, limit);
    var m := Matching(xs, from, to);
    assert forall k :: 0 <= k < |m| ==> WindowTest(from, to)(m[k]);
    DatesSurviveView(m, limit, from, to);
  }

  /** Every entry of a list shows up, without its id, once the list is
      reversed and projected. */
  lemma ReversedViewHolds(m: seq<Exercise>, x: Exercise)
    requires x in m
    ensures Strip(x) in Project(Reverse(m))
  {
    var k :| 0 <= k < |m| && m[k] == x;
    var r := Reverse(m);
    assert r[|m| - 1 - k] == x;
    assert Project(r)[|m| - 1 - k] == Strip(x);
  }

  /** The window's positions are the positions that pass the window test. */
  lemma WindowPositionsPass(xs: seq<Exercise>, from: Option<Timestamp>, to: Option<Timestamp>)
    ensures PassingPositions(xs, WindowTest(from, to), |xs|) == WindowPositions(xs, from, to)
  {
  }

  /** Without a limit the log has one item per stored entry in the window. */
  lemma LogCountsEveryMatch(xs: seq<Exercise>, from: Option<Timestamp>, to: Option<Timestamp>)
    ensures |BuildLog(xs, from, to, None)| == |WindowPositions(xs, from, to)|
  {
    var w := WindowTest(from, to);
    assert |BuildLog(xs, from, to, None)| == |Matching(xs, from, to)| by {
      LogIsNewestMatchingFirst(xs, from, to, None);
    }
    FilterLength(xs, w);
    WindowPositionsPass(xs, from, to);
  }

  /** Without a limit nothing in the window is left out: every stored entry
      in the window is reported, and the log has exactly as many items as
      there are such entries, so entries stored twice are reported twice. */
  lemma LogHoldsEveryMatch(xs: seq<Exercise>, from: Option<Timestamp>, to: Option<Timestamp>)
    ensures forall j :: 0 <= j < |xs| && InWindow(xs[j].date, from, to) ==>
              Strip(xs[j]) in BuildLog(xs, from, to, None)
    ensures |BuildLog(xs, from, to, None)| == |WindowPositions(xs, from, to)|
  {
    var w := WindowTest(from, to);
    var m := Matching(xs, from, to);
    LogIsNewestMatchingFirst(xs, from, to, None);
    forall j | 0 <= j < |xs| && InWindow(xs[j].date, from, to)
      ensures Strip(xs[j]) in Project(Reverse(m))
    {
      assert xs[j] in m by {
        assert w(xs[j]);
        FilterMembers(xs, w);
      }
      ReversedViewHolds(m, xs[j]);
    }
    LogCountsEveryMatch(xs, from, to);
  }

  /** Dropping the ids keeps a sub-sequence a sub-sequence. */
  lemma {:induction false} ProjectSubsequence(a: seq<Exercise>, b: seq<Exercise>)
    requires IsSubsequence(a, b)
    ensures IsSubsequence(Project(a), Project(b))
    decreases |b|
  {
    if |a| > 0 {
      assert Project(b)[1..] == Project(b[1..]);
      if a[0] == b[0] && IsSubsequence(a[1..], b[1..]) {
        ProjectSubsequence(a[1..], b[1..]);
        assert Project(a)[1..] == Project(a[1..]);
      } else {
        ProjectSubsequence(a, b[1..]);
      }
    }
  }

  /** The log is a sub-sequence of the stored entries, newest first and
      without ids: it keeps their relative order and adds nothing. */
  lemma LogIsSubsequenceOfReversed(xs: seq<Exercise>, from: Option<Timestamp>, to: Option<Timestamp>,
                                   limit: Option<int>)
    requires limit.Some? ==> limit.value > 0
    ensures IsSubsequence(BuildLog(xs, from, to, limit), Project(Reverse(xs)))
  {
    var w := WindowTest(from, to);
    var m := Matching(xs, from, to);
    KeepFromToIsWindow(xs, from, to);
    FilterReverse(xs, w);
    FilterIsSubsequence(Reverse(xs), w);
    var t := Truncate(Reverse(m), limit);
    PrefixIsSubsequence(Reverse(m), |t|);
    SubsequenceTransitive(t, Reverse(m), Reverse(xs));
    ProjectSubsequence(t, Reverse(xs));
  }

  /** With no bounds and no limit the log is every stored entry, newest first. */
  lemma UnfilteredLogIsReversed(xs: seq<Exercise>)
    ensures BuildLog(xs, None, None, None) == Project(Reverse(xs))
    ensures |BuildLog(xs, None, None, None)| == |xs|
  {
    KeepFromToIsWindow(xs, None, None);
    FilterAll(xs, WindowTest(None, None));
  }

  /** Entry by entry: the unfiltered log's `i`-th entry is the `i`-th newest stored one. */
  lemma UnfilteredLogEntries(xs: seq<Exercise>)
    ensures |BuildLog(xs, None, None, None)| == |xs|
    ensures forall i :: 0 <= i < |xs| ==> BuildLog(xs, None, None, None)[i] == Strip(xs[|xs| - 1 - i])
  {
    UnfilteredLogIsReversed(xs);
  }

  /** A limit keeps the newest entries of the unlimited log, at most `limit` of them. */
  lemma LimitKeepsNewest(xs: seq<Exercise>, from: Option<Timestamp>, to: Option<Timestamp>, limit: int)
    requires limit > 0
    ensures BuildLog(xs, from, to, Some(limit)) == Prefix(BuildLog(xs, from, to, None), limit)
    ensures |BuildLog(xs, from, to, Some(limit))| <= limit
  {
    LogIsNewestMatchingFirst(xs, from, to, Some(limit));
    LogIsNewestMatchingFirst(xs, from, to, None);
  }

  /** The entry appended last heads the unfiltered log. */
  lemma AppendedEntryComesFirst(xs: seq<Exercise>, e: Exercise)
    ensures BuildLog(xs + [e], None, None, None) == [Strip(e)] + BuildLog(xs, None, None, None)
  {
    UnfilteredLogIsReversed(xs + [e]);
    UnfilteredLogIsReversed(xs);
    ReverseAppendOne(xs, e);
    assert Project([e] + Reverse(xs)) == [Strip(e)] + Project(Reverse(xs));
  }

  /** A request without parameters runs the pipeline with no bounds and no limit. */
  lemma PlainRequest(user: User, parse: DateParser)
    ensures Logs(user, LogRequest(None, None, None), parse).log == BuildLog(user.exercises, None, None, None)
  {
  }

  /** A request without parameters lists every stored entry, newest first. */
  lemma PlainRequestListsAllNewestFirst(user: User, parse: DateParser)
    ensures Logs(user, LogRequest(None, None, None), parse).count == |user.exercises|
    ensures forall i :: 0 <= i < |user.exercises| ==>
              Logs(user, LogRequest(None, None, None), parse).log[i]
              == Strip(user.exercises[|user.exercises| - 1 - i])
  {
    PlainRequest(user, parse);
    UnfilteredLogEntries(user.exercises);
  }

  /** With a limit `n` and no bounds, the log is the `n` newest entries, or
      all of them when there are fewer. */
  lemma LimitedLogIsNewest(xs: seq<Exercise>, n: int)
    requires n > 0
    ensures |BuildLog(xs, None, None, Some(n))| == if n < |xs| then n else |xs|
    ensures forall i :: 0 <= i < |BuildLog(xs, None, None, Some(n))| ==>
              BuildLog(xs, None, None, Some(n))[i] == Strip(xs[|xs| - 1 - i])
  {
    LimitKeepsNewest(xs, None, None, n);
    UnfilteredLogIsReversed(xs);
    var log := BuildLog(xs, None, None, Some(n));
    var all := Project(Reverse(xs));
    assert log == all[..|log|];
    forall i | 0 <= i < |log|
      ensures log[i] == Strip(xs[|xs| - 1 - i])
    {
      assert log[i] == all[i];
    }
  }

  /** A request with only a `limit` runs the pipeline with that limit and no bounds. */
  lemma LimitOnlyRequest(user: User, limit: string, n: int, parse: DateParser)
    requires NormaliseLimit(Some(limit)) == Some(n)
    ensures n > 0
    ensures Logs(user, LogRequest(None, None, Some(limit)), parse).log == BuildLog(user.exercises, None, None, Some(n))
  {
  }

  /** The second half of `ValidLimitKeepsNewest`: once the response's log is
      known to be the pipeline's for limit `n` (what `LimitOnlyRequest`
      shows), it reports the `n` newest entries, or all of them when there
      are fewer. Keeping the reading of `limit` and the facts about the log
      in separate lemmas keeps each proof small. */
  lemma LimitOnlyResponse(user: User, limit: string, n: int, parse: DateParser)
    requires n > 0
    requires Logs(user, LogRequest(None, None, Some(limit)), parse).log == BuildLog(user.exercises, None, None, Some(n))
    ensures var r := Logs(user, LogRequest(None, None, Some(limit)), parse);
            && r.count == (if n < |user.exercises| then n else |user.exercises|)
            && forall i :: 0 <= i < r.count ==> r.log[i] == Strip(user.exercises[|user.exercises| - 1 - i])
  {
    LimitedLogIsNewest(user.exercises, n);
  }

  /** A `limit` that normalises to a positive `n` (such as "2" or "2abc",
      see `NumeralLimitIsKept`) returns the `n` newest entries, or all of
      them when there are fewer. */
  lemma ValidLimitKeepsNewest(user: User, limit: string, n: int, parse: DateParser)
    requires NormaliseLimit(Some(limit)) == Some(n)
    ensures var r := Logs(user, LogRequest(None, None, Some(limit)), parse);
            && r.count == (if n < |user.exercises| then n else |user.exercises|)
            && forall i :: 0 <= i < r.count ==> r.log[i] == Strip(user.exercises[|user.exercises| - 1 - i])
  {
    LimitOnlyRequest(user, limit, n, parse);
    LimitOnlyResponse(user, limit, n, parse);
  }

  /** A positive numeral survives limit normalisation with its value. */
  lemma NumeralLimitIsKept(n: nat, rest: string)
    requires n > 0
    requires |rest| == 0 || !IsDecimalDigit(rest[0])
    ensures NormaliseLimit(Some(ShowNat(n) + rest)) == Some(n)
  {
    ParseIntOfNumeral(n, rest);
  }

  /** Empty, zero, negative and non-numeric limits normalise to null: every
      text with no digit after the white space and sign ("abc", "x5", ".5",
      "0x"), every text whose digit run, decimal or after a `0x` prefix, is
      zeros ("0", "00", "-0", "0x0"), and every
      text whose first character after the white space is a minus sign
      ("-3", " -5", "-05", "-0x1A"). */
  lemma BadLimitsNormaliseToNull(s: string)
    ensures NormaliseLimit(Some("")) == None
    ensures ReadsNoDigits(s) ==> NormaliseLimit(Some(s)) == None
    ensures ReadsZero(s) ==> NormaliseLimit(Some(s)) == None
    ensures HasMinusSign(s) ==> NormaliseLimit(Some(s)) == None
  {
    ParseIntIsNaN(s);
    if ReadsZero(s) {
      ParseIntOfZeros(s);
    }
  }

  /** A `limit` that normalises to null is ignored: the response is the one
      without a limit, and no error is raised. The first clause only
      restates the normalisation rule of `NormaliseLimit`, to name the
      limits this covers: missing, empty, or read by `parseInt` as NaN,
      zero or a negative number. */
  lemma BadLimitIsIgnored(user: User, from: Option<string>, to: Option<string>, limit: Option<string>,
                          parse: DateParser)
    ensures NormaliseLimit(limit).None? <==>
              (limit.None? || limit.value == "" || ParseInt(limit.value).NaN? || ParseInt(limit.value).value <= 0)
    ensures NormaliseLimit(limit).None? ==>
              Logs(user, LogRequest(from, to, limit), parse) == Logs(user, LogRequest(from, to, None), parse)
  {
  }

  /** A `from` or `to` the date parser rejects, or an empty one, is treated
      as absent: the response is the one without that bound. */
  lemma BadBoundIsIgnored(user: User, request: LogRequest, parse: DateParser)
    ensures FormatDate(request.from, parse).None? ==>
              Logs(user, request, parse) == Logs(user, request.(from := None), parse)
    ensures FormatDate(request.to, parse).None? ==>
              Logs(user, request, parse) == Logs(user, request.(to := None), parse)
  {
  }

  /** The positions of the stored entries dated on day `n`. */
  function DayPositions(xs: seq<Exercise>, n: int): set<nat> {
    set j: nat | j < |xs| && xs[j].date == Day(n)
  }

  /** The window whose two bounds are the midnight of day `n` holds the entries of that day. */
  lemma OneDayWindow(xs: seq<Exercise>, n: int)
    ensures WindowPositions(xs, Some(n * MsPerDay), Some(n * MsPerDay)) == DayPositions(xs, n)
  {
    var b := Some(n * MsPerDay);
    forall j: nat ensures j in WindowPositions(xs, b, b) <==> j in DayPositions(xs, n) {
      if j < |xs| {
        SameMidnightWindowIsOneDay(xs[j].date, n);
      }
    }
  }

  /** The log for the window of one midnight is exactly the entries of that day. */
  lemma OneDayLog(xs: seq<Exercise>, n: int)
    ensures var log := BuildLog(xs, Some(n * MsPerDay), Some(n * MsPerDay), None);
            && (forall i :: 0 <= i < |log| ==> log[i].date == Day(n))
            && (forall j :: 0 <= j < |xs| && xs[j].date == Day(n) ==> Strip(xs[j]) in log)
            && |log| == |DayPositions(xs, n)|
  {
    var b := Some(n * MsPerDay);
    var log := BuildLog(xs, b, b, None);
    LogWithinWindow(xs, b, b, None);
    LogHoldsEveryMatch(xs, b, b);
    OneDayWindow(xs, n);
    forall i | 0 <= i < |log|
      ensures log[i].date == Day(n)
    {
      SameMidnightWindowIsOneDay(log[i].date, n);
    }
    forall j | 0 <= j < |xs| && xs[j].date == Day(n)
      ensures InWindow(xs[j].date, b, b)
    {
      SameMidnightWindowIsOneDay(xs[j].date, n);
    }
  }

  /** `from` and `to` set to the same date that parses to a midnight report
      exactly the entries stored for that day, newest first: each of them,
      and as many items as there are such entries. */
  lemma SameDayRequest(user: User, text: string, n: int, parse: DateParser)
    requires parse(text) == Some(n * MsPerDay) && text != ""
    ensures var r := Logs(user, LogRequest(Some(text), Some(text), None), parse);
            && (forall i :: 0 <= i < |r.log| ==> r.log[i].date == Day(n))
            && (forall j :: 0 <= j < |user.exercises| && user.exercises[j].date == Day(n) ==>
                  Strip(user.exercises[j]) in r.log)
            && r.count == |DayPositions(user.exercises, n)|
            && IsSubsequence(r.log, Project(Reverse(user.exercises)))
  {
    var b := Some(n * MsPerDay);
    assert FormatDate(Some(text), parse) == b;
    OneDayLog(user.exercises, n);
    LogIsSubsequenceOfReversed(user.exercises, b, b, None);
  }
}
