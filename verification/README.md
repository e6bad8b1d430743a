# Exercise tracker: the log query

A model of the one piece of logic in the exercise-tracker microservice: the
query behind `GET /api/users/:id/logs`. Given the exercises a user has
stored, in the order they were appended, and the optional `from`, `to` and
`limit` query parameters, it

1. turns `from` and `to` into dates, treating a missing, empty or
   unparseable value as absent (`formatDate`);
2. turns `limit` into a positive integer or null (`parseInt`, then "keep it
   only if it is a number greater than zero");
3. keeps the entries dated on or after `from`, then those on or before `to`;
4. reverses them, so the most recently appended entry comes first;
5. keeps the first `limit` of them;
6. answers `{ username, count, _id, log }`, where `log` holds each entry's
   `description`, `duration` and `date` without its internal id and `count`
   is the length of `log`.

The entry record built by the exercise handler (`newExercise`) is modelled
too, because it decides what a stored date looks like.

Modules:

- `Wrappers` (`wrappers.dfy`): `Option`, standing for JavaScript's null and
  undefined, and the truthiness test of an optional string parameter.
- `JsNumbers` (`js_numbers.dfy`): `parseInt` with no radix, following
  section 19.2.5 of ECMA-262. It skips leading white space, reads a sign,
  switches to hexadecimal on `0x`, and reads the longest digit run. NaN is a
  constructor of `IntOrNaN`.
- `Dates` (`dates.dfy`): time values in milliseconds. `DateText` is the
  text `toDateString` writes: a day number, or "Invalid Date". Also here are
  `formatDate` and the `>=` / `<=` comparisons, where NaN compares false. The
  host date parser is a parameter (`DateParser`).
- `Exercises` (`exercises.dfy`): users, stored entries, log items and
  `newExercise`.
- `Sequences` (`sequences.dfy`): `filter`, `reverse` and `slice(0, n)` on
  sequences, plus the sub-sequence relation.
- `LogQuery` (`log_query.dfy`): the query pipeline (`BuildLog`) and the
  response (`Logs`).
- `LogProperties` (`log_properties.dfy`): the promises of the query. They
  are stated against an independent description: "the entries inside the
  date window, newest first, cut to the limit".

The comment above the exercise handler (index.js:106) says that when no
date is supplied the current date is used. The code (index.js:116) does
this for a missing or empty `date` only. A present `date` that does not
parse is not replaced by today: it is stored as the text "Invalid Date". Such an entry reaches the log only when no `from` and no `to`
is given, because comparing the invalid date with anything is false.
`Exercises.NewExercise` and `LogProperties.LogWithinWindow` state this.

## Model

| member | source | states |
|---|---|---|
| `Dates.FormatDate` | index.js:147-154 | a bound is a date exactly when the text is present, non-empty and accepted by the parser, and it is then the parser's date |
| `Dates.ToDateString` | index.js:116 | `toDateString` names a day exactly for a valid date, and that day contains the instant |
| `Dates.ReadBack` | index.js:187 | reading a stored date text back gives the midnight that starts its day, and writing it again gives the same text |
| `Dates.DayComparisons` | index.js:185-195 | `new Date(date) >= from` and `<= to` compare the midnight of the stored day, and both are false for "Invalid Date", as comparisons with NaN are |
| `Dates.SameMidnightWindowIsOneDay` | index.js:185-195 | a window whose two bounds are the same midnight holds exactly the entries stored for that day |
| `Dates.MidnightFromKeepsSameDay` | index.js:185-189 | a `from` at midnight keeps every entry recorded at or after it, including the rest of that day |
| `Dates.MidDayFromDropsSameDay` | index.js:185-189 | a `from` after midnight drops the entries of that same day, because stored dates keep only the day |
| `JsNumbers.TrimStart` | index.js:178 | the result is no longer than the text and does not start with white space |
| `JsNumbers.TrimStartDropsWhiteSpace` | index.js:178 | the trimmed text is a suffix of the text, and everything removed before it is white space |
| `JsNumbers.DigitRunLength` | index.js:178 | the digit run ends at the end of the text or at a character that is not a digit of the radix |
| `JsNumbers.DigitRunIsDigits` | index.js:178 | every character inside the digit run is a digit of the radix |
| `JsNumbers.ParseInt` | index.js:178 | `parseInt`, used for `limit` here and for `duration` at index.js:115: a number read after a minus sign is at most zero, and any other number is at least zero. Its value is given by `ParseIntOfNumeral` and `ParseIntOfNegativeNumeral` for decimal numerals without leading zeros, `ParseIntOfPlusDigit` and `ParseIntOfLeadingZero` for a `+` sign or leading zeros, `ParseIntIsNaN` for texts with no digit, and `ParseIntOfZeros` for zero runs; the hexadecimal branch only by the example in `ParseIntOfHex` |
| `JsNumbers.ParseIntOfNumeral` | index.js:178 | `parseInt` reads a positive decimal numeral and ignores what follows the digits |
| `JsNumbers.ParseIntOfNegativeNumeral` | index.js:178 | a minus sign before a positive decimal numeral gives its negative, whatever follows the digits |
| `JsNumbers.ParseIntIsNaN` | index.js:178 | `ParseInt` gives NaN exactly when no digit of the chosen radix follows the white space, the sign and the `0x` prefix ("", "abc", "x5", ".5", "0x") |
| `JsNumbers.ParseIntOfZeros` | index.js:178 | a text whose digit run, decimal or after a `0x` prefix, is zeros ("0", "00", "-0", " +000abc", "0x0") parses to zero |
| `JsNumbers.ParseIntOfPlusDigit` | index.js:178 | a `+` sign before a decimal digit does not change the value ("+5" is 5) |
| `JsNumbers.ParseIntOfLeadingZero` | index.js:178 | a leading zero before a decimal digit does not change the value ("05" is 5), unless the rest starts with `0x` |
| `JsNumbers.ParseIntSkipsWhiteSpace` | index.js:178 | leading white space does not change what `parseInt` reads |
| `JsNumbers.ParseIntOfHex` | index.js:178 | without a radix, "0x1A" parses as hexadecimal 26 |
| `JsNumbers.ShowNatValue` | index.js:178 | the decimal numeral of `n` denotes `n` |
| `Exercises.NewExercise` | index.js:113-117 | the entry keeps the description and parses the duration. A missing or empty date gives the day of `now`. An accepted date gives its own day. A rejected date gives "Invalid Date" |
| `Exercises.MissingDurationIsNaN` | index.js:115 | for a missing duration the `newExercise` record holds NaN |
| `Exercises.Strip` | index.js:207 | removing the internal id loses nothing else: putting the id back gives the stored entry |
| `LogQuery.NormaliseLimit` | index.js:178-180 | the limit is either null or a positive integer. It is present exactly when the parameter is non-empty and parses to a positive number, and it is then that number |
| `LogQuery.KeepFrom` | index.js:185-189 | with a `from`, every entry dated on or after it is kept as many times as it is stored and no other entry is; without one, nothing is removed |
| `LogQuery.KeepTo` | index.js:191-195 | with a `to`, every entry dated on or before it is kept as many times as it is stored and no other entry is; without one, nothing is removed |
| `Sequences.Reverse` | index.js:197 | the result has the same length, and position `i` holds the input's element counted `i` from the end |
| `LogQuery.Truncate` | index.js:199-201 | with a limit, the result is a prefix of at most `limit` elements, and it is shorter than the input only when it is exactly `limit` long; without a limit, the input is unchanged |
| `LogQuery.Project` | index.js:207 | each log item is the entry at the same position without its id |
| `LogQuery.BuildLog` | index.js:185-207 | the log never holds more items than there are stored entries, nor more than the limit; `LogIsNewestMatchingFirst` gives its exact content |
| `LogQuery.Logs` | index.js:203-207 | `count` equals the length of `log`, which is at most the number of stored entries; username and id are the user's |
| `Sequences.Filter` | index.js:186-188 | every kept element passes the test, and nothing is dropped exactly when every element passes |
| `Sequences.FilterCounts` | index.js:186-188 | every element that passes the test is kept as many times as it occurs, and no other element is kept |
| `Sequences.FilterLength` | index.js:186-188 | the result has one element per input position whose element passes the test |
| `Sequences.FilterMembers` | index.js:186-188 | an element is kept exactly when it is in the input and passes the test |
| `Sequences.FilterIsSubsequence` | index.js:186-188 | filtering keeps the relative order of the elements it keeps |
| `Sequences.FilterReverse` | index.js:186-197 | filtering then reversing equals reversing then filtering |
| `Sequences.FilterFilter` | index.js:185-195 | two filters in a row keep exactly what passes both tests |
| `LogProperties.KeepFromToIsWindow` | index.js:185-195 | the `from` and `to` steps together keep exactly the entries inside the window |
| `LogProperties.LogIsNewestMatchingFirst` | index.js:185-207 | the log is the entries inside the window, newest first, without ids, cut to the limit |
| `LogProperties.LogWithinWindow` | index.js:185-195 | every log item is dated inside the window, so with any bound set no "Invalid Date" entry appears |
| `LogProperties.LogHoldsEveryMatch` | index.js:185-197 | without a limit, every stored entry inside the window appears in the log, and the log has exactly one item per such entry |
| `LogProperties.LogCountsEveryMatch` | index.js:185-203 | without a limit, `count` is the number of stored entries inside the window |
| `LogProperties.LogIsSubsequenceOfReversed` | index.js:186-207 | the log is a sub-sequence of the stored entries reversed and without ids: order is kept and nothing is added |
| `LogProperties.UnfilteredLogIsReversed` | index.js:197 | with no bounds and no limit, the log is every stored entry in reverse order |
| `LogProperties.UnfilteredLogEntries` | index.js:197 | with no bounds and no limit, log item `i` is the `i`-th newest stored entry without its id |
| `LogProperties.LimitKeepsNewest` | index.js:199-201 | with a limit, the log is the first `limit` items of the unlimited log, so `count` is at most `limit` |
| `LogProperties.AppendedEntryComesFirst` | index.js:197 | the entry appended last heads the unfiltered log, followed by the earlier log |
| `LogProperties.PlainRequestListsAllNewestFirst` | index.js:176-207 | a request without parameters reports every stored entry, newest first, and `count` is their number |
| `LogProperties.LimitedLogIsNewest` | index.js:197-201 | with a limit `n` and no bounds, the log is the min(n, stored) newest entries, newest first |
| `LogProperties.LimitOnlyRequest` | index.js:176-201 | a request with only a `limit` that normalises to `n` runs the pipeline with no bounds and limit `n`, and `n` is positive |
| `LogProperties.ValidLimitKeepsNewest` | index.js:178-201 | a `limit` that normalises to `n` returns the min(n, stored) newest entries, newest first |
| `LogProperties.NumeralLimitIsKept` | index.js:178-180 | a positive numeral survives normalisation with its value |
| `LogProperties.BadLimitsNormaliseToNull` | index.js:178-180 | a limit normalises to null when it is empty, has no digit after its white space and sign, has a digit run of zeros, decimal or hexadecimal ("00", "0x0"), or starts with a minus sign after its white space (" -5", "-05", "-0x1A") |
| `LogProperties.BadLimitIsIgnored` | index.js:178-201 | a `limit` normalises to null exactly when it is missing, empty, or read by `parseInt` as NaN, zero or negative, and every such `limit` gives the same response as no `limit`, with no error |
| `LogProperties.BadBoundIsIgnored` | index.js:176-177 | a `from` or `to` that is empty or that the parser rejects gives the same response as leaving it out |
| `LogProperties.SameDayRequest` | index.js:185-207 | `from` and `to` equal to one midnight report only entries of that day, every one of them, newest first, and `count` is the number stored for that day |
| `LogProperties.OneDayLog` | index.js:185-197 | the log for the window of one midnight holds only and every entry of that day, one item per entry |

## Left out

- The HTTP layer is not modelled: routing, middleware, static files, the
  greeting route and the port setup (index.js:1-11, 54-64, 217-220).
- Status codes and error bodies are not modelled. This covers the 400 for a
  malformed id and the 500 paths (index.js:76-81, 126-127, 139-144, 172-174,
  209-214).
- The database is not modelled: the connection, the schema, user creation
  and listing, and the `$push` append (index.js:13-51, 71-102, 119-124).
  Username uniqueness and atomic appends are MongoDB's job. `Logs` takes the
  user the store found.
- `findById` can return null for a well-formed id that has no user. The code
  then crashes into the 500 path. This is not modelled, because `Logs` needs
  a user.
- `ObjectId.isValid` and `new ObjectId(id)` are library checks and are not
  modelled.
- The host date parser is a parameter. Which texts it accepts, and what
  they mean, is not modelled.
- The host time zone is taken to be UTC. In other zones, a bare `from` such
  as "2024-01-01" parses to UTC midnight while stored dates read back at
  local midnight. That shift is not modelled.
- Dates.ReadBack: reading a date text back is modelled as exact for every
  year. The host's legacy date parser maps a written year 0-99 to 1900-1999
  or 2000-2049, even when it is written "0050". So the round trip holds on a
  real host only for years 100-9999, and that mapping is not modelled.
- Date texts are modelled as day numbers. The printed form of
  `toDateString` is not modelled, including the way it writes years outside
  0-9999.
- JsNumbers.ParseInt: the result is an exact integer. Doubles are not
  modelled, so integers above 2^53 are not rounded. For a limit this makes
  no difference, since a rounded value is still far above any log length.
- A query parameter that Express parses into an array or object, such as a
  repeated `limit`, is not modelled. Parameters are strings or missing.
- Request bodies that carry numbers instead of strings are not modelled.
  A missing `description` is not modelled either.
- What Mongoose does when it is asked to store a NaN duration is not
  modelled. It is database casting.
