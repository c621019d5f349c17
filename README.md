# Solved-problem tracking of the TLE Discord bot, in Dafny

This project models the part of the bot's `solved` cog (`tle/cogs/solved.py`)
that members of a Codeforces study group use to see who has solved what, plus
the `insert_returns` statement rewrite behind the owner's eval command
(`tle/cogs/meta.py`).

- **Time strings** (`ClockTime`, `Calendar`). Times are typed as `HHMM`.
  - `convert_to_unix_time` reads such a time at UTC+6 on a given date and
    returns Unix seconds.
  - `convert_to_12h_format` prints it as `hh:mm AM`/`PM`.
  - Both parse with `strptime("%H%M")`. CPython turns that format into the
    regular expression `(2[0-3]|[0-1]\d|\d)([0-5]\d|\d)`. The model follows
    that expression, including how leniently it reads short input: `"123"`
    is 12:03 and `"12"` is 01:02.
  - The conversion joins date and time with a space, which `strptime` reads
    as `\s+`. So the Unix conversion skips leading white space and the
    12-hour one rejects it.
  - The proleptic Gregorian day count is computed with the days-from-civil
    formula. It is proved to go up by exactly one per calendar day.
- **The polling monitor** (`Monitor`), `check_for_updates`. For every linked
  user whose submissions could be fetched:
  - the candidates are the submissions newer than the user's watermark with
    verdict OK or PARTIAL;
  - each candidate worth announcing adds three embed fields (Solved, Rating,
    Tags), and zero-point partials are skipped;
  - when the candidate list is non-empty, the embed is sent and the
    watermark moves to the instant captured for that user.

  The KeyErrors of queued submissions and of partials without points are
  modelled, and so is the crash on a member the bot cannot look up. The
  watermark store is a class whose map field the update method reassigns.
  The cycle is a method with a loop, proved against a function over the whole
  user list.
- **The `solved` command** (`Report`):
  - the window: two Unix instants from the start and end arguments, default
    `0000` and `2359`;
  - the users dictionary, filled from the fetches: a repeated member id keeps
    its first position and takes the last value;
  - the per-user count of accepted submissions inside the window, both ends
    included;
  - a stable descending sort by count;
  - the rendered message, with one line per user whose count is positive.

  Failures surface in the order the command meets them.
- **`insert_returns`** (`Meta`). It makes a function body return the value of
  its last expression statement. The rewrite recurses into a trailing `if`
  (both branches) and a trailing `with`. It is modelled as a function over
  statement lists, plus a method that applies it in place to the top-level
  list held in an array.

Shared pieces: `Wrappers` (Option, Result), `Text` (decimal digits, padding,
joining, white space), `Seqs` (order-preserving filter and subsequences) and
`Codeforces` (the submission record and the problem link).

## Model

| member | source | states |
|---|---|---|
| Codeforces.Section | tle/cogs/solved.py:77 | the URL section is "contest" exactly when the contest id is below GYM_ID_THRESHOLD (100000), otherwise "gym" |
| Codeforces.ProblemLinkSection | tle/cogs/solved.py:75-79 | the link starts with the bracketed problem name and the site root, points into contest/ iff the id is below the gym threshold and into gym/ otherwise, then carries the contest id in decimal, "/problem/" and the problem index, and ends with ")" |
| Codeforces.ProblemLinkPath | tle/cogs/solved.py:78 | after the section, the contest id reads back in decimal, followed by "/problem/", the problem index and ")" |
| ClockTime.ParseFourDigits | tle/cogs/solved.py:42 | on four digits, %H%M accepts exactly an hour pair up to 23 and a minute pair up to 59, and reads those values |
| ClockTime.FormatHHMMRoundTrip | tle/cogs/solved.py:42 | every valid clock written as HHMM parses back to itself |
| ClockTime.ParseHourMinuteShortInput | tle/cogs/solved.py:42 | the lenient readings "123" = 12:03, "12" = 01:02, "930" = 09:30, and the rejections of "2" and "12345" |
| ClockTime.ConvertTo12hFormat | tle/cogs/solved.py:40-43 | succeeds iff %H%M parses the string; otherwise the error is the ValueError |
| ClockTime.Format12RoundTrip | tle/cogs/solved.py:43 | the %I:%M %p rendering loses nothing: it reads back as the 24-hour clock it came from |
| ClockTime.ConvertTo12hFourDigits | tle/cogs/solved.py:40-43 | on four digits: fails iff hour > 23 or minute > 59; hour 0 prints as 12, 1-12 as itself, 13-23 less 12; the minutes are copied; AM before noon, PM from noon |
| ClockTime.Format12OfDigits | tle/cogs/solved.py:43 | the 12-hour text of the clock four digits spell, digit by digit |
| ClockTime.ConvertTo12hMidnight | tle/cogs/solved.py:40-43 | "0000" converts to "12:00 AM" |
| ClockTime.ConvertTo12hAfternoon | tle/cogs/solved.py:40-43 | "1330" converts to "01:30 PM" |
| ClockTime.LocalToUnix | tle/cogs/solved.py:36-37 | a successful result is at least 0001-01-01 UTC and, shifted by six hours, falls on the given date's day number at the given wall-clock second; an invalid date or time is the ValueError |
| ClockTime.ConvertToUnixTimeFourDigits | tle/cogs/solved.py:25-37 | on four digits: ValueError for hour > 23 or minute > 59, OverflowError below year 1, else days-since-epoch * 86400 + the wall-clock seconds - 21600 |
| ClockTime.ConvertToUnixTimeNextDay | tle/cogs/solved.py:28-37 | the same time string on the next calendar day gives exactly 86400 more seconds |
| ClockTime.LocalToUnixNextDay | tle/cogs/solved.py:36-37 | the wall-clock instant one calendar day later is 86400 seconds later |
| ClockTime.LeadingSpaceSkipped | tle/cogs/solved.py:32 | white space before the time does not change the Unix conversion (the format's space reads as \s+) |
| ClockTime.LeadingSpaceRejected | tle/cogs/solved.py:42 | the 12-hour conversion rejects a time string that starts with white space |
| ClockTime.DefaultStart | tle/cogs/solved.py:100 | the default start argument reads as 00:00 |
| ClockTime.DefaultEnd | tle/cogs/solved.py:100 | the default end argument reads as 23:59 |
| ClockTime.DefaultWindow | tle/cogs/solved.py:100-102 | on every valid date but 0001-01-01, the default arguments give a window from local midnight (UTC+6) to 60 seconds before the next one |
| ClockTime.DefaultStartFirstDay | tle/cogs/solved.py:36-37 | on 0001-01-01 the default start falls before the first representable instant, so the conversion is the OverflowError |
| Calendar.DaysFromCivilAfterFirstDay | tle/cogs/solved.py:37 | every valid date after 0001-01-01 has a larger day count than that date |
| Calendar.EpochIsDayZero | tle/cogs/solved.py:37 | 1970-01-01 is day 0 of the day count behind the timestamp |
| Calendar.DaysFromCivilNext | tle/cogs/solved.py:36-37 | the day count goes up by exactly one from each valid date to the next |
| Monitor.CandidatesExact | tle/cogs/solved.py:65-69 | the comprehension fails (KeyError) iff a new submission has no verdict; otherwise it keeps exactly the new OK/PARTIAL submissions, each as often as fetched, in API order |
| Monitor.CandidatesAcceptedOrPartial | tle/cogs/solved.py:65-69 | every candidate is newer than the watermark and has verdict OK or PARTIAL |
| Monitor.RatingValue | tle/cogs/solved.py:84 | the rating prints as "XXXX" exactly when the problem has none; otherwise the text reads back in decimal as the rating |
| Monitor.TagsValueNone | tle/cogs/solved.py:86 | an empty tag list prints as "None", and "None" comes only from such a list or from tags that join to "None" |
| Monitor.SubmissionFields | tle/cogs/solved.py:83-87 | one announced submission adds three fields, named Solved, Rating and Tags, in that order, whose values are its Solved text, its rating text and its tag text |
| Monitor.SolvedValueReadsBack | tle/cogs/solved.py:75-82 | the Solved value starts with the problem link; without a PARTIAL verdict with points it is the link alone; with one it continues " (", then the points in decimal (after a minus sign if negative), then ends " points)" |
| Monitor.PointsNoteReadsBack | tle/cogs/solved.py:81-82 | the points note is " (", the points in decimal, then " points)" |
| Monitor.NoteAfterLink | tle/cogs/solved.py:80-82 | a points note put after any link still reads back, at the offset where the link ends |
| Monitor.AnnouncedExactly | tle/cogs/solved.py:65-72 | the submissions that get fields are exactly the fetched ones that are newer than the watermark and worth announcing (OK, or PARTIAL with positive points), in API order |
| Monitor.FieldsOfAt | tle/cogs/solved.py:70-87 | the k-th announced submission's three fields sit at positions 3k to 3k+2 |
| Monitor.EmbedFieldsAnnounced | tle/cogs/solved.py:70-87 | the field loop fails iff a PARTIAL candidate lacks points; otherwise it yields three fields per announced candidate (zero-point partials skipped), in order |
| Monitor.EmbedFieldsOnlyMissingPoints | tle/cogs/solved.py:71 | the only error the field loop raises is the KeyError for missing points |
| Monitor.BuildEmbedFields | tle/cogs/solved.py:70-87 | the loop computes exactly the field list (or error) that EmbedFields specifies |
| Monitor.UserDb.LastSolvedTime | tle/cogs/solved.py:61 | the stored watermark, or 0 for a user never stored |
| Monitor.UserDb.UpdateLastSolvedTime | tle/cogs/solved.py:97 | the user's watermark becomes the given instant, and no other user's changes |
| Monitor.CheckForUpdates | tle/cogs/solved.py:50-97 | the loop's sent embeds, its failure and the store's new watermarks are exactly those of Cycle on the old watermarks |
| Monitor.PollOneUser | tle/cogs/solved.py:58-97 | one user's turn: each KeyError and the unknown-member crash send and store nothing; no candidates changes nothing; otherwise one embed with the announced fields is sent, timestamped and watermarked with the capture instant |
| Monitor.ZeroPointPartialsStillAdvance | tle/cogs/solved.py:70-97 | when every candidate is a zero-point partial, an embed without fields is still sent and the watermark still moves |
| Monitor.NothingNewIsQuiet | tle/cogs/solved.py:61-97 | when no fetched submission is newer than the watermark, nothing is sent and nothing changes |
| Monitor.SecondPassIsQuiet | tle/cogs/solved.py:61-97 | polling the same submissions again after a successful turn sends nothing and stores nothing |
| Monitor.FailedFetchesSkipped | tle/cogs/solved.py:58-59 | a cycle with non-200 fetches equals the cycle over the users whose fetch succeeded |
| Monitor.MarksComeFromCaptures | tle/cogs/solved.py:62-97 | after a cycle, each watermark is either unchanged or the capture instant of one of that user's turns, never a submission time; no user is dropped from the store |
| Monitor.MarksNeverDecrease | tle/cogs/solved.py:61-97 | with capture instants that never run backwards and never precede a stored watermark, no watermark decreases |
| Monitor.MixedVerdictScenario | tle/cogs/solved.py:65-97 | watermark 50 and submissions OK@100, PARTIAL 0 pts@200, PARTIAL 5 pts@300: two submissions announced (six fields), watermark set to the capture instant |
| Report.StoreSpec | tle/cogs/solved.py:112-114 | users[id] = value keeps ids distinct; a new id is appended, an existing one takes the new value in place |
| Report.CollectSpec | tle/cogs/solved.py:105-114 | the dictionary holds each fetched id once, with that id's last fetch, and no more entries than fetches |
| Report.CollectDistinct | tle/cogs/solved.py:105-114 | with no id fetched twice, the dictionary is the fetch list in order |
| Report.CountSolvedOne | tle/cogs/solved.py:119-120 | a submission inside the window without verdict is a KeyError; only an accepted one inside the window (both ends included) counts |
| Report.CountSolvedAppend | tle/cogs/solved.py:119-120 | counting fails on a concatenation iff it fails on a part, and otherwise adds up |
| Report.DefaultWindowMissesLastMinute | tle/cogs/solved.py:100-120 | an accepted submission 30 seconds before the next local midnight is not counted in the default window |
| Report.TallySpec | tle/cogs/solved.py:117-120 | the tally fails (KeyError) iff some answered user's count fails; otherwise one row per answered user, in dictionary order, with that user's count |
| Report.InsertByCountPermutes | tle/cogs/solved.py:128 | one insertion step of the sort keeps the rows, with multiplicity |
| Report.InsertByCountSorted | tle/cogs/solved.py:128 | one insertion step keeps the list in non-increasing count order |
| Report.InsertByCountClasses | tle/cogs/solved.py:128 | within every count class, one insertion step puts the new row ahead of the rows already placed, so each class keeps its original order |
| Report.RankByCountSpec | tle/cogs/solved.py:128 | sorting by -count gives a permutation, non-increasing in count, with equal counts in their original order |
| Report.StableRankUnique | tle/cogs/solved.py:128 | two non-increasing orders that agree on every count class are equal, so the stable sort is unique |
| Report.RenderLineReadsBack | tle/cogs/solved.py:131 | a line is the handle, " solved ", the count in decimal, " problems" and a newline |
| Report.ListedRanking | tle/cogs/solved.py:128-131 | the listed rows are exactly the rows with a positive count, with multiplicity, in non-increasing order |
| Report.ListedSorted | tle/cogs/solved.py:129-130 | skipping zero counts keeps a non-increasing order |
| Report.DayMonth | tle/cogs/solved.py:125 | "%d %b" is the two-digit day, a space, then the three-letter English abbreviation of that month |
| Report.LeadingSpaceFailsLate | tle/cogs/solved.py:101-123 | a start time with leading white space passes the Unix conversion unchanged but still fails the command; when the window and the tally succeed, the error is the 12-hour conversion's ValueError |
| Report.Bad12hStartFails | tle/cogs/solved.py:122 | a start time the 12-hour conversion rejects fails the command |
| Report.SolvedCommandReport | tle/cogs/solved.py:99-132 | a successful message is the header with both 12-hour times and then the listed ranking; the lines are non-increasing and positive, and each belongs to an answered user with that user's own count |
| Report.RowsFromAnswered | tle/cogs/solved.py:117-131 | every listed row of a successful tally carries an answered user's id, handle and count |
| Meta.InsertReturnsSpec | tle/cogs/meta.py:43-56 | the rewrite fails (IndexError) iff a visited list is empty; otherwise, at every visited level, the list keeps its length and every statement but the last; a last expression statement becomes a return of its value; a last if keeps its test and has both branches rewritten by the same rule; a last with keeps its items and has its body rewritten; any other last statement is kept; no visited list ends in an expression |
| Meta.RewrittenListUnique | tle/cogs/meta.py:43-56 | that rule determines the result: a list related to the body by it is the (corrected) rewrite |
| Meta.InsertReturnsFixedPoint | tle/cogs/meta.py:43-56 | on a rewritable body, the rewrite leaves it unchanged iff no visited list ends in an expression statement |
| Meta.InsertReturnsIdempotent | tle/cogs/meta.py:43-56 | rewriting a rewritten body changes nothing |
| Meta.TrailingIfWithoutElseFails | tle/cogs/meta.py:50-52 | a body ending in an if without an else raises IndexError |
| Meta.InsertReturnsGuardedSpec | tle/cogs/meta.py:43-56 | the corrected rewrite never fails, follows the same rule at every visited level (empty lists stay empty), leaves no visited list ending in an expression, and agrees with the original wherever that succeeds |
| Meta.TrailingIfWithoutElseGuarded | tle/cogs/meta.py:50-52 | the corrected rewrite turns the then-branch into a return and leaves the missing else empty |
| Meta.InsertReturnsInPlace | tle/cogs/meta.py:43-56 | in place on the statement array: succeeds iff the body is rewritable, and then the array holds the rewrite; on failure it is unchanged |

## Left out

- Talking to the outside world is not modelled:
  - the HTTP requests to the Codeforces API, and the JSON status and result envelope;
  - Discord: sending messages and embeds, the author's profile URL and avatar, the channel id;
  - the periodic scheduler and its 60-second delay;
  - `asyncio.sleep`.

  A fetch is an input: the submission list, or None for a non-200 response.
  Whether the bot knows a member is a boolean input.
- Clocks are parameters:
  - `date.today()` is the date the time is laid on;
  - `datetime.now()` in the monitor is the per-user capture instant;
  - the header date of the command is the date at UTC+6.
- The guilds are flattened into one user sequence per cycle, in visiting order.
- Digits are ASCII only. Python's `\d` also matches other Unicode decimal
  digits, which the model rejects.
- `strftime("%Y-%m-%d")` followed by re-parsing the date is not modelled:
  the date is passed as a value and must be a valid date.
- `ast.fix_missing_locations` is not modelled: source positions are not part
  of the statement model.
- Meta.InsertReturnsInPlace: on failure the array is left unchanged. The
  source may already have rewritten a nested then-branch before it raises on
  the else-branch. Nested statement lists are values here, so there is no
  aliasing between them.
- Meta: statements other than expression statements, returns, `if` and
  `with` are one opaque kind. So are `async with` and the rest of the eval
  command (parsing, compiling, running, formatting output).
- Monitor.SolvedValue: the function is total. For a PARTIAL submission
  without points it omits the points. The field loop never builds that value,
  because it raises the KeyError first (Monitor.EmbedFieldsAnnounced).
- Monitor.UserDb.LastSolvedTime: a user never stored reads as 0. The user
  database is not part of this model.
- Points are integers. The API may send fractional points, which are not
  modelled.
- Discord's 25-field limit on an embed is not modelled.
- A problem without `contestId` (a KeyError in the source) is not modelled:
  every problem has one.
- ClockTime.DefaultWindow: requires a date other than 0001-01-01. On that
  date alone the default start is six hours before the first representable
  instant and the source raises OverflowError
  (ClockTime.DefaultStartFirstDay).

## Findings

| source | as written | input that shows it | evidently intended | confidence | as-written member | corrected member |
|---|---|---|---|---|---|---|
| tle/cogs/meta.py:50-52 | a trailing `if` is rewritten by recursing into both `body` and `orelse`, and every visited list is indexed with `body[-1]` | an eval body whose last statement is `if c: v` with no `else`: `orelse` is empty and `body[-1]` raises IndexError | skip empty statement lists, so that the then-branch returns its value and the missing else stays empty | not executed | Meta.TrailingIfWithoutElseFails | Meta.InsertReturnsGuardedSpec |
