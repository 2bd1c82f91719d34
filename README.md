# cappylib core, modelled in Dafny

cappylib is a small Python 2 utility library. This project models its core and proves properties of
the model:

- **Prontab** (`cappylib/prontab.py`) is a cron-style scheduler. A `ProntabEvent` turns each of its
  five time arguments into a set of allowed values: an int, a set, any other iterable, or a
  `'*/n'` string that `parseStr` expands over a range. `checkTime` matches a time tuple against
  all five sets. `Prontab.run` runs an endless loop over the events. For each event it forks a
  child when the event matches and has no child running. It then reaps the event's child with a
  non-blocking `waitpid` and raises the library's `error` when the reported status is non-zero.
  That status is the raw wait status, not the exit code: a child that calls `exit(1)` is
  reported, and named in the error message, as status 256.
- **date_time** (`cappylib/date_time.py`, and its older copy `date_time.py` at the top level):
  - `nthWeekday` and `previousWeekday` are day-stepping searches.
  - `holiday.check` tests a datetime against a bit mask of US/NYSE holidays: the opening and
    closing bells, Good Friday afternoon, and the Easter computation.
  - `dateCheck` combines allow and deny lists of such masks.
  - `calcTimeseries` walks back from a start date by a fixed interval and keeps the dates a
    callback accepts.
  - `isBusinessDate` is a stub.
  - The two files' `nthWeekday` and `previousWeekday` are the same code, so one member models
    both. The two `calcTimeseries` differ in their signatures: the newer one takes `dateCheck` and
    then `criteria`, the older one `type` and then `dateCheck`, so a positional seventh argument
    is the callback in one and `type` in the other. They also pass different keyword arguments
    to the callback. The model takes the callback, with those arguments bound, as `accept`.
- **general** (`cappylib/general.py`) has three parts:
  - the `error` exception and its message format;
  - `aColor`, which turns `;`-separated format names into ANSI escape sequences; the `B` and `I`
    tokens add an offset to the next code;
  - `argParse`, which splits the command line into positional arguments and `--key=value` pairs,
    maps the positional arguments onto a key list, and optionally searches for a key or a value.
- **Log** (`log.py`) is a logging class. It merges keyword settings over defaults. Each event is
  formatted through a `'{0} host pid ID ({1}): {2}'` template. Depending on the level, the event
  is appended to an in-memory log, printed, appended to log files and published over AMQP.
- **queryMysql** (`cappylib/db.py`) rewrites list-valued query inputs. Each list becomes one
  generated key per element (`__k0`, `__k1`, …), and the query anchor `%(k)s` becomes the list of
  new anchors. It then executes the query and zips every row with the column names.

Datetimes are integers counting seconds since 1970-01-01 00:00:00. Day numbers and the proleptic
Gregorian calendar are in module `Calendar`, where weekday 0 is Monday as in Python's `weekday()`.
Python exceptions are the `Err` arm of a `Result` (module `Wrappers`). The library's own `error`
is `Raised(message)`, carrying the text it formats.

Where the comments and the code disagree, the model follows the code.

- **`previousWeekday`.**
  - Its loop guard compares the date with the 1st of the date's *own current* month, so the guard
    can never fail. The function never returns `False`: it returns the latest matching weekday on
    or before the date.
  - With a weekday outside 0..6 it steps back until `datetime` underflows. `DateTime.PreviousWeekday`
    returns `OverflowError` then.
  - The same holds when a match would lie before year 1.
- **`nthWeekday`.**
  - An invalid month or year is a `ValueError`.
  - December 9999 overflows while the 31-day bound is computed.
  - A weekday outside 0..6 is a `KeyError` on the counts dictionary.
- **`parseStr`.** It keeps the captured `n` as a string, so `i % n` raises `TypeError` for every
  `'*/n'` argument (Findings). The corrected model keeps the source's half-open ranges:
  `range(0, 59)` for minutes never yields 59.
- **`dateCheck`.** Line 151 tests `allow` where `deny` is meant (Findings).
- **`argParse`.** Its pattern is searched with `re.search`, unanchored. An argument such as
  `x--a='1` therefore yields the pair `a`/`1`.

## Model

| member | source | states |
|---|---|---|
| General.ErrorMessage | cappylib/general.py:58-59 | the message starts with the location, `": "`, the error type and a space, and is at least as long as these fixed parts |
| General.ErrorMessagesRecoverable | cappylib/general.py:58-59 | the space-joined messages can be split back out of the text after the prefix, when none of them holds a space |
| General.OffsetValue | cappylib/general.py:81-82 | `B` and `I` are table entries, and their values are the offsets |
| General.CodesCount | cappylib/general.py:88-93 | one ANSI code is produced per non-offset token |
| General.CodeAfterOffsets | cappylib/general.py:88-93 | a run of offset tokens adds its sum to the code of the next colour or style token and is then reset |
| General.OffsetRun | cappylib/general.py:89-90 | offset tokens accumulate into the pending offset |
| General.TrailingOffsetEmitsNothing | cappylib/general.py:88-93 | a trailing `B` or `I` produces no code |
| General.Codes | cappylib/general.py:86-93 | definition of the emitted codes, token by token: an offset token adds to the pending offset, any other token emits its table code plus the offset and resets it, an unknown token is a KeyError (its properties are the lemmas above) |
| General.ParseRender | cappylib/general.py:96 | the rendered `ESC[<code>m` string parses back to exactly the list of codes (the rendering is injective) |
| General.Render | cappylib/general.py:96 | definition of the joined `ESC[<code>m` sequences, in order (ParseRender reads them back) |
| General.AColor | cappylib/general.py:62-96 | the result is the rendering of the codes; an unknown token is the dictionary's KeyError, and it is returned exactly when code computation fails |
| General.PrependTwice | cappylib/general.py:92 | emitting codes one after another composes by concatenation |
| General.BoldBackgroundIntenseGreen | cappylib/general.py:160 | `BOLD;B;I;GREEN` yields codes 1 and 102 (the module's own demonstration) |
| General.SampleTokens | cappylib/general.py:88 | the demonstration string splits into its four tokens |
| General.IndexFrom | cappylib/general.py:108 | finds the first `=` at or after a position, or the end |
| General.DashesFrom | cappylib/general.py:108 | finds the first `--` at or after a position, or the end |
| General.KeyValue | cappylib/general.py:108-111 | definition of the unanchored pair search: the leftmost `--` starts a key that runs to the first `=` at least one character later; the value is the rest less one leading quote (KeyValueUnanchored, KeyValueNeedsKey) |
| General.KeyValueUnanchored | cappylib/general.py:108-111 | the pair pattern is found anywhere in an argument, and one leading quote is dropped from the value |
| General.KeyValueNeedsKey | cappylib/general.py:108 | no `--`, or an empty key, is not a pair |
| General.ExtractionSplitsArgs | cappylib/general.py:105-111 | every argument is either removed as a pair (and its key recorded) or kept as a positional argument |
| General.PositionalExcludes | cappylib/general.py:110 | an argument that matches the pair pattern is never positional |
| General.PositionalArgs | cappylib/general.py:105-110 | definition of the arguments left after the pairs are removed, in order (ExtractionSplitsArgs) |
| General.Pairs | cappylib/general.py:106-111 | definition of the recorded pairs, a later pair for a key overriding an earlier one (ExtractionSplitsArgs, MappedArgsKeys) |
| General.ZipDictAt | cappylib/general.py:119 | `zip` pairs the i-th key with the i-th value when one exists; a key past the values is absent |
| General.ZipDictKeys | cappylib/general.py:119 | the zipped dictionary has only keys of the key list |
| General.ZipDictContains | cappylib/general.py:119 | a key with a matching value is present |
| General.ZipDict | cappylib/general.py:119 | definition of `dict(zip(keys, values))`, up to the shorter list (ZipDictAt, ZipDictKeys, ZipDictContains) |
| General.DefaultsFill | cappylib/general.py:125-127 | every keyMap key gets a value, which is None unless it was already mapped; nothing else changes |
| General.MappedArgsKeys | cappylib/general.py:118-127 | the result has `__file` and every keyMap key, and every `--key=value` pair overrides a positional mapping |
| General.MappedArgs | cappylib/general.py:118-127 | definition of the mapping: `__file` and keyMap zipped with argv[0] and the positional arguments, the pairs merged over it, None for missing keyMap keys (MappedArgsKeys) |
| General.Select | cappylib/general.py:129-139 | definition of the choice of return value, in the source's order: value search, key search, mapping, positional list (ArgParseShape) |
| General.ArgParseResult | cappylib/general.py:99-139 | definition of what argParse returns for a given argv (ArgParseShape, and ArgParse computes it) |
| General.ArgParseShape | cappylib/general.py:129-139 | a value search (and only that) gives a boolean, true iff the value is a positional argument or a mapped value; otherwise a key search gives the mapped value of the key, or False when it is unmapped; otherwise a key map or a pair gives the mapping; the plain positional list comes back only with no key map and no pair |
| General.ArgParse | cappylib/general.py:99-139 | the loop-based procedure computes the specified result |
| General.ExtractPairs | cappylib/general.py:105-111 | the extraction loop gives the positional arguments and the last value of each key |
| General.FillDefaults | cappylib/general.py:124-127 | the defaulting loop gives the specified dictionary |
| Calendar.MonthStart | cappylib/date_time.py:68 | the 1st of a day's month is at most 30 days before it |
| Calendar.Epoch | cappylib/date_time.py:161 | 1970-01-01 is day 0 and back; year 1 starts at the calendar's lower limit; 2012-01-01 is a Sunday |
| Calendar.CivilFromDays | cappylib/date_time.py:128 | a day number has a month in 1..12 and a day in 1..31 |
| Calendar.CivilRoundTrip | cappylib/date_time.py:140-141 | every valid date (month 1..12, day within the month, 29 February only in leap years) comes back unchanged from its day number, so the day numbers stand for `datetime`'s calendar |
| Calendar.WeekdayAdd | cappylib/date_time.py:52 | the weekday advances by one per day, cyclically |
| DateTime.NthWeekday | cappylib/date_time.py:43-61 | the day of the nth occurrence of the weekday in the 31 days from the 1st, or None; ValueError for an invalid year or month, OverflowError for December 9999, KeyError for a weekday outside 0..6 |
| DateTime.CountsStep | cappylib/date_time.py:50-52 | after each step the counts dictionary holds the number of each weekday seen so far |
| DateTime.FirstReaching | cappylib/date_time.py:50-58 | definition of the scan over the 31-day window (FirstReachingMeaning) |
| DateTime.FirstReachingMeaning | cappylib/date_time.py:50-58 | a result is the first day on which the count reaches nth, and for nth >= 1 has the wanted weekday and count exactly nth; None means fewer than nth occurrences in the window |
| DateTime.SevenDays | cappylib/date_time.py:50 | any seven consecutive days hold each weekday once |
| DateTime.WeekOffset | cappylib/date_time.py:50 | an n-day window (n <= 7) holds the weekday iff its offset from the first day is below n |
| DateTime.CountSplit | cappylib/date_time.py:50 | counts over adjacent windows add |
| DateTime.FourWeeks | cappylib/date_time.py:50 | 28 days hold each weekday exactly four times |
| DateTime.WindowAtMostFive | cappylib/date_time.py:50 | the 31-day window holds each weekday at most five times |
| DateTime.NoSixthWeekday | cappylib/date_time.py:60-61 | a sixth or later occurrence is never found |
| DateTime.FifthSundayOfFebruary2015 | cappylib/date_time.py:50 | the window runs past the month: the 5th Sunday of February 2015 is March 1st |
| DateTime.FourSundays | cappylib/date_time.py:50 | February 2015 has four Sundays, and its window's 29th day brings a fifth |
| DateTime.LatestOnOrBeforeMeaning | cappylib/date_time.py:68-73 | the result is the latest day with the weekday on or before the date, at most six days back |
| DateTime.LatestOnOrBefore | cappylib/date_time.py:68-73 | definition of the day the backward step loop stops at (LatestOnOrBeforeMeaning) |
| DateTime.PreviousWeekday | cappylib/date_time.py:64-76 | returns the date moved back to that latest matching day, keeping the time of day; OverflowError when that would pass year 1 or the weekday is outside 0..6 |
| DateTime.DayBefore | cappylib/date_time.py:73 | subtracting one day moves to the previous day number |
| DateTime.DayFloor | cappylib/date_time.py:68 | a datetime is never before midnight of the 1st of its month, so the loop guard always holds |
| DateTime.UsAllMaskValue | cappylib/date_time.py:98 | `h_us_all` is 65534 |
| DateTime.UsAllMaskBits | cappylib/date_time.py:98 | `h_us_all` has exactly bits 1..15 set, so it omits `h_us_nyse_amclosed` |
| DateTime.FoldShifts | cappylib/date_time.py:98 | or-reducing `1 << x` for x in lo..hi-1 sets exactly those bits |
| DateTime.PowerBits | cappylib/date_time.py:82-97 | each holiday constant `2**n` has exactly bit n |
| DateTime.MaskBits | cappylib/date_time.py:98 | `2**n - 2` has exactly bits 1..n-1 |
| DateTime.Easter | cappylib/date_time.py:128-136 | Easter Sunday falls between March 22 and April 25 |
| DateTime.EasterBounds | cappylib/date_time.py:134-136 | the intermediate `f` lies in 114..148, so month is 3 or 4 |
| DateTime.EasterOf2013 | cappylib/date_time.py:128-136 | Easter 2013 is March 31 |
| DateTime.GoodFriday2013 | cappylib/date_time.py:139-141 | Good Friday afternoon 2013 starts at 2013-03-29 13:00 |
| DateTime.Check | cappylib/date_time.py:117-141 | definition of `holiday.check`: the bell tests first, then TypeError for the Easter bit, then Good Friday from 13:00, else false (CheckBells, GoodFridayOnwards, GoodFridayDenied) |
| DateTime.CheckBells | cappylib/date_time.py:117-141 | before 9:30 the opening-bell bit holds, from 16:00 the closing-bell bit holds, and with none of the four used bits the check is false |
| DateTime.GoodFridayOnwards | cappylib/date_time.py:139-141 | once Good Friday afternoon holds it holds for the rest of the year |
| DateTime.GoodFridayBit | cappylib/date_time.py:89 | the Good Friday constant selects only the Good Friday branch |
| DateTime.DateCheck | cappylib/date_time.py:147-157 | the loops over allow and deny compute the as-written decision, whose precedence AsWrittenWithDeny and OmittedDenyRaises state |
| DateTime.FirstTrue | cappylib/date_time.py:153-156 | definition of one loop of dateCheck (FirstTrueMeaning) |
| DateTime.DateCheckAsWritten | cappylib/date_time.py:147-157 | definition of dateCheck as written, where line 151 tests `allow` (OmittedDenyRaises, AsWrittenWithDeny) |
| DateTime.DateCheckIntended | cappylib/date_time.py:147-157 | definition of dateCheck with line 151 testing `deny` (DateCheckPrecedence) |
| DateTime.FirstTrueMeaning | cappylib/date_time.py:153-156 | a list scan raises iff some check raises before any check holds; without errors it is true iff some check holds |
| DateTime.DateCheckPrecedence | cappylib/date_time.py:146-157 | as intended: true iff some allow mask holds or no deny mask holds; an omitted deny is an empty list |
| DateTime.AsWrittenWithDeny | cappylib/date_time.py:150-157 | as written, with a deny given: the result equals the intended one, so it is true iff some allow mask holds or no deny mask holds |
| DateTime.ScalarIsSingleton | cappylib/date_time.py:153-155 | a scalar mask behaves as a one-element list |
| DateTime.OmittedDenyRaises | cappylib/date_time.py:150-156 | as written, an omitted deny raises TypeError unless an allow mask holds; the intended version returns true |
| DateTime.GoodFridayDenied | cappylib/date_time.py:197-201 | the module's demonstration: 10:00 on Good Friday 2013 is allowed and 13:01 is denied |
| DateTime.YearOfGoodFriday2013 | cappylib/date_time.py:128 | day 15793 is in 2013 |
| DateTime.BitsOf67 | cappylib/date_time.py:197 | the demonstration mask has the two bell bits and the Good Friday bit and not Easter |
| Timeseries.CalcTimeseries | cappylib/date_time.py:166-182 | the loop keeps the dates the specified series describes |
| Timeseries.Interval | cappylib/date_time.py:167 | definition of the interval in seconds: days, minutes and seconds combined (whole seconds only) |
| Timeseries.Series | cappylib/date_time.py:166-182 | definition of the kept dates, candidate by candidate (SeriesIsTakeOfFilter and the Series lemmas) |
| Timeseries.Candidates | cappylib/date_time.py:177-180 | definition of the visited dates, down to the first at or before dateEnd (CandidatesShape) |
| Timeseries.SeriesIsTakeOfFilter | cappylib/date_time.py:170-180 | the series is the first `count` accepted candidates |
| Timeseries.CandidatesShape | cappylib/date_time.py:177-180 | the i-th candidate is dateStart - i·interval; all but the last lie after dateEnd and the last at or before it |
| Timeseries.SeriesLength | cappylib/date_time.py:170 | at most `count` dates, none when count <= 0 |
| Timeseries.SeriesMembers | date_time.py:71-81 | every kept date was accepted and is a candidate |
| Timeseries.FilterMembers | cappylib/date_time.py:173-174 | filtering keeps only accepted elements of the input |
| Timeseries.SeriesDecreasing | cappylib/date_time.py:177-180 | kept dates strictly decrease, and only the last may lie at or before dateEnd |
| Timeseries.SeriesEnd | date_time.py:77-79 | a short series ended at dateEnd, and its last date is the first candidate at or before dateEnd exactly when that candidate was accepted |
| Timeseries.AcceptAll | cappylib/date_time.py:161 | with the default callback every candidate is kept |
| Timeseries.FilterAll | cappylib/date_time.py:161 | the always-true callback filters nothing out |
| Timeseries.IsBusinessDate | date_time.py:86-87 | the stub returns None for every input |
| Prontab.ToSet | cappylib/prontab.py:54-61 | an int becomes its singleton, a set passes through, an iterable becomes the set of its elements, a string becomes a set no time component belongs to, anything else is a TypeError |
| Prontab.Contains | cappylib/prontab.py:45-47 | definition of `item in field`, where a ProntabSet contains every item (DefaultEventMatchesAll) |
| Prontab.StepDigits | cappylib/prontab.py:69-70 | the captured group is a non-empty run of digits |
| Prontab.ParseStr | cappylib/prontab.py:64-74 | corrected: `'*/n'` gives the multiples of n in the half-open range, `'*/0'` a ZeroDivisionError, and any other argument passes through |
| Prontab.ParseStrAsWritten | cappylib/prontab.py:64-74 | as written, anything but a `'*/n'` string passes through unchanged |
| Prontab.StepStringsRaise | cappylib/prontab.py:70-71 | as written, every `'*/n'` string raises TypeError, including the documented `'*/15'` |
| Prontab.StepField | cappylib/prontab.py:81 | corrected, a `'*/n'` field is the set of multiples of n |
| Prontab.Field | cappylib/prontab.py:81-85 | definition of one field: parseStr over the range, then toSet (StepField, StepFieldsHalfOpen) |
| Prontab.MakeEvent | cappylib/prontab.py:76-85 | definition of ProntabEvent.__init__: the five fields in order, the first failing one ending it (DefaultEventMatchesAll, QuarterHours) |
| Prontab.CheckTime | cappylib/prontab.py:90-97 | definition of checkTime, the AND of the five membership tests (CheckTimeFieldwise) |
| Prontab.CheckTimeFieldwise | cappylib/prontab.py:90-97 | a time matches iff every one of its five components is in its field; falsifying one field falsifies the match |
| Prontab.DefaultEventMatchesAll | cappylib/prontab.py:45-47 | an event built from the defaults matches every time |
| Prontab.StepFieldsHalfOpen | cappylib/prontab.py:81-85 | corrected step fields never contain minute 59, hour 23, day 31, December or Sunday |
| Prontab.QuarterHours | cappylib/prontab.py:81 | corrected, `minute='*/15'` matches exactly minutes 0, 15, 30 and 45 |
| Prontab.VisitAtMostOneChild | cappylib/prontab.py:119-136 | a visit keeps the event, changes the pid only by forking (when matching and idle) or reaping to 0, and never replaces a running child by another |
| Prontab.Visit | cappylib/prontab.py:119-140 | definition of one iteration of the loop over the events: fork when matching and idle, then reap (VisitAtMostOneChild, VisitSpawns, VisitReaps) |
| Prontab.VisitSpawns | cappylib/prontab.py:119-124 | a matching idle event stores the child's pid; a non-matching one is unchanged when nothing is reaped |
| Prontab.VisitReaps | cappylib/prontab.py:133-140 | a reaped child resets the pid to 0, and the visit fails iff the status is non-zero |
| Prontab.ExitStatus | cappylib/prontab.py:128-131 | definition of the raw wait status of a child calling `exit(n)`: n times 256 |
| Prontab.ActionRaised | cappylib/prontab.py:125-140 | a child 7 that calls `exit(0)` just resets the pid; one that calls `exit(1)` because the action raised `error` is reported as status 256 and raises the formatted error naming status 256 |
| Prontab.ChildSevenFailed | cappylib/prontab.py:139-140 | the error text for child 7 and raw status 256 |
| Prontab.PassFrom | cappylib/prontab.py:117-140 | a pass over the events keeps the number of events |
| Prontab.PassAtMostOneChild | cappylib/prontab.py:117-136 | after a pass every event still has at most one child: a pid only changes to 0 or to a newly forked child |
| Prontab.PassFromCompletes | cappylib/prontab.py:117-140 | a pass completes iff every visit completes, and each event is then its visit's result |
| Prontab.PassFromStops | cappylib/prontab.py:133-140 | a failed pass stops at a failing visit, leaving the later events untouched |
| Prontab.PassFromKeepsPrefix | cappylib/prontab.py:117 | events before the current one are not changed by the rest of the pass |
| Prontab.RunFrom | cappylib/prontab.py:114-142 | repeated passes keep the number of events |
| Prontab.RunKeepsEvents | cappylib/prontab.py:114-142 | over any number of passes the events are unchanged and pids stay non-negative |
| Prontab.Scheduler.constructor | cappylib/prontab.py:103-107 | every event starts with pid 0 |
| Prontab.Scheduler.Pass | cappylib/prontab.py:117-140 | updating the events array in place gives the specified pass |
| Prontab.Scheduler.Run | cappylib/prontab.py:114-142 | the passes of the loop give the specified run |
| Log.LevelName | log.py:111 | names 0..5 and, by Python's negative indexing, -6..-1; IndexError exactly outside -6..5 |
| Log.LevelNames | log.py:65-72 | the level constants are ordered NONE < … < DEBUG and named by `NAMES` |
| Log.Merge | log.py:88-96 | definition of the merged settings (MergeOverrides) |
| Log.MergeOverrides | log.py:75-96 | each of the six settings, when given, overrides its default, and otherwise keeps it; the defaults are timestamp, utc, level DEBUG, stdout NONE, no AMQP and no files |
| Log.FormatShape | log.py:105-112 | the message starts with the timestamp and ends with ` (LEVEL): event` |
| Log.Format | log.py:103-112 | definition of the default template filled with timestamp, host, pid, ID, level name and event (FormatShape) |
| Log.FilesFor | log.py:122-125 | at most one write per configured file entry |
| Log.FilesForMeaning | log.py:122-125 | a file is written iff some entry names it with a level at or above the event's |
| Log.DefaultGates | log.py:114-119 | with default settings every level is recorded, only NONE is printed, nothing is written or published |
| Log.LogEventAppends | log.py:111-116 | the event is appended iff its level passes the threshold and its name exists; an unnamed level raises |
| Log.LogEventSpec | log.py:100-134 | definition of what logEvent records, returns and does (DefaultGates, LogEventAppends, and LogEvent computes it) |
| Log.SelfTest | log.py:152-153 | the module's own demonstration records, writes to `test.log` and publishes the DEBUG event |
| Log.WrittenFiles | log.py:122-125 | the loop over the file entries writes to exactly the specified files |
| Log.Log.constructor | log.py:88-97 | the settings are the merged ones and the event log is empty |
| Log.Log.LogEvent | log.py:100-134 | the new event log, the returned message and the side effects are the specified ones; settings and ID are unchanged |
| Db.NewKeys | cappylib/db.py:82 | the i-th generated key is `__<k><i>` |
| Db.KeysDistinct | cappylib/db.py:82 | generated keys differ for different elements and from the original key |
| Db.KeyIsNotDebug | cappylib/db.py:82 | a generated key is never the reserved `__debug` |
| Db.NewEntriesMeaning | cappylib/db.py:83 | the new dictionary maps exactly the generated keys, each to its element |
| Db.StepKeepsOthers | cappylib/db.py:74-86 | after rewriting one key every key still to be visited is present |
| Db.ExpandStepList | cappylib/db.py:81-89 | a non-empty list is replaced by its elements under the generated keys; other inputs survive unless overwritten; every anchor of the key becomes the joined new anchors |
| Db.ExpandStepOther | cappylib/db.py:75-80 | an empty list becomes the empty string and a non-list is untouched; the query is unchanged |
| Db.ExpandStep | cappylib/db.py:75-89 | definition of the loop body for one key (ExpandStepList, ExpandStepOther) |
| Db.Expand | cappylib/db.py:74-89 | definition of the whole rewrite, key by key in the listed order (NoListsPassThrough, ExpandTwoElements, and PrepareInputs computes it) |
| Db.NoListsPassThrough | cappylib/db.py:74-75 | inputs without lists leave inputs and query unchanged |
| Db.DebugPassesThrough | cappylib/db.py:64 | a non-list `__debug` input survives the rewrite |
| Db.ExpandTwoElements | cappylib/db.py:82-89 | `IN %(a)s` with a = [1, 2] becomes `IN %(__a0)s, %(__a1)s` with those two inputs |
| Db.PrepareInputs | cappylib/db.py:74-89 | the rewriting loop over the key snapshot computes the specified inputs and query |
| Db.ZipDictMeaning | cappylib/db.py:98 | with distinct columns a row dictionary has exactly the columns, each mapped to its value |
| Db.ZipDict | cappylib/db.py:98 | definition of `dict(zip(column_names, row))` (ZipDictMeaning) |
| Db.Rows | cappylib/db.py:98 | one dictionary per row |
| Db.BuildRows | cappylib/db.py:98 | the loop builds each row's dictionary |
| Db.QueryMysql | cappylib/db.py:63-108 | an invalid db type raises the formatted error with no effect; otherwise the rewritten query and inputs are executed, the rows returned, the connection closed only when opened here, and the debug line printed iff `__debug` is truthy |
| Strings.ReplaceIsJoinOfSplit | cappylib/db.py:88-89 | `str.replace` equals joining the pieces of a split on the pattern |
| Strings.JoinSplit | cappylib/general.py:88 | splitting a joined string recovers the parts when none contains the separator |

## Left out

- I/O is passed in as values: the clock, the host name, the process ID, `sys.argv`, forks, `waitpid` results and query rows are parameters. Printing, file appends, AMQP publishing, query execution and connection closing are `Effects` values, not performed.
- `strftime`/`isoformat` text of dates: `calcTimeseries` returns the kept datetimes as seconds, and `Log` takes the timestamp strings as parameters.
- The import-time default `dateStart=utcnow()`: the start date is always a parameter.
- Datetime range limits (years 1..9999) are modelled only in `nthWeekday` and `previousWeekday`. Elsewhere datetimes are unbounded integers.
- Timeseries.CalcTimeseries: requires a positive interval, which excludes every interval <= 0, the all-defaults call `calcTimeseries(3)` included. With interval 0 the source stops at once when dateStart <= dateEnd, returns count copies of dateStart when the callback accepts it, and loops forever otherwise; with a negative interval it stops only once count dates are accepted.
- Timeseries.CalcTimeseries: the callback `accept` is a total function, so a callback that raises (the library's own `dateCheck` does when `deny` is omitted) is not modelled; in the source its exception propagates out of `calcTimeseries`.
- Timeseries.CalcTimeseries: Python 2's `strftime` raises ValueError for a kept date before 1900, which a `dateEnd` before 1900 can reach; the model returns the kept datetimes without formatting them and has no such error.
- Timeseries.Interval: datetimes and intervals are whole seconds, so float `timedelta` arguments and the microseconds of `dateStart` (which take part in the comparison `dateStart <= dateEnd`) are not modelled.
- Prontab: the action, its arguments, and what the child process does are outside the model. The child's exit status reaches the model only through the `waitpid` result.
- Prontab: `sys.stdout`/`sys.stderr` flushes and the stderr message of a failed action.
- Prontab: `while True` runs forever; the model runs a given finite list of passes, each with its own clock readings.
- Prontab: `time.sleep(1)` between passes.
- Prontab: `waitpid(0, …)` for an idle event reaps any child of the process group. The model takes it as whatever the `waitpid` oracle reports.
- Prontab: `ValidFork`/`ValidWait` encode what POSIX guarantees: a forked child's pid is positive and a reaped pid is non-negative.
- Prontab: the same event object passed twice (aliasing). The model keeps one record per position.
- Prontab.ParseStr: `StrArg` does not tell Python 2's `str` from `unicode`. A unicode `u'*/15'` fails the `isinstance(obj, str)` test, goes through `set(obj)` as its characters and matches no time; the model treats every string as a `str`.
- Prontab: `ProntabSet` is modelled by its membership alone; dictionaries and other iterables are folded into one sequence argument.
- Log: extra keyword settings beyond the six named ones, the unused `timestamp` setting, the always-empty `__template`, and `int()` conversion of non-integer levels.
- Log.Log.LogEvent: requires host name and ID without braces. Braces there would be parsed as extra format fields by `str.format`, which the model does not interpret.
- Db: MySQL connect, execute, commit and close; the `cursor.statement` text and the `str(inputs)` content of the debug print (printing is a flag).
- Db: the `except` clauses that translate `KeyError`/`IndexError` and `mysql.connector.Error` into the library's error. Query execution never fails in the model.
- Db: Python 2's order of `inputs.keys()` is a parameter (any duplicate-free listing of the keys).
- Db: input values are limited to None, booleans, integers, strings, lists and an opaque other value.
- General.ArgParse: `ast_eval=True` would run `ast.literal_eval` over the values; values stay strings.
- General.ArgParse: requires a non-empty `argv`, which `sys.argv` always is.
- The library's `error` appears only through the message it formats (`Raised(message)`).
- `amqp.py`, `cappylib/mathfinstat.py`, `setup.py` and `cappylib/__main__.py` are not part of this model.

## Findings

| source | as written | input that shows it | evidently intended | confidence | as-written member | corrected member |
|---|---|---|---|---|---|---|
| cappylib/prontab.py:70-71 | the captured `n` stays a string, so `i % n` raises TypeError | `ProntabEvent(f, minute='*/15')` | `n = int(...)`, the multiples of n in the range | not executed | Prontab.StepStringsRaise | Prontab.StepField |
| cappylib/date_time.py:151 | `deny = [] if allow == None else deny` tests `allow`, which line 150 has already replaced, so an omitted deny stays None and reaches `None & 1` | `dateCheck(t)` at any `t` | `deny = [] if deny == None else deny` | not executed | DateTime.OmittedDenyRaises | DateTime.DateCheckPrecedence |
