# sora-autoposter: the scheduling and dedup decisions, in Dafny

The posting bot (`post_if_due.py`) runs on a timer. It reads a weekly schedule from a
spreadsheet and decides whether "now" is one of today's posting slots. If it is, it reads
the log of posted file names, picks the first video in the Drive listing that is not in
that log, looks up the caption for the day, uploads the video and appends a log row.
This project models the decision logic of that run. Remote I/O (Drive, Sheets, the
browser upload, decryption) is left out.

As written, `post_if_due.py` does not compile: `def upload_to_tiktok` (line 99) is followed
by an unindented line. The model describes lines 60-97 and 177-204 as evidently intended,
with `upload_to_tiktok` as an external step.

Modules, one per piece of the logic:

- `Text` (`text.dfy`): the Python string operations the decisions depend on.
  These are `str.strip()` (Python's whitespace set), `str.lower()`, `str.split(sep)`
  and `int()`.
- `Calendar` (`calendar.dfy`): the weekday names that `strftime("%A").lower()` gives.
  A clock reading is a weekday plus microseconds since local midnight.
- `Schedule` (`schedule.dfy`): the row loop of `read_schedule_sheet`, written as a
  method (`ReadSchedule`). It is proved equal to a left fold over the rows (`ScheduleOf`,
  `CaptionsOf`). Also here: the `caption_map.get(weekday, CAPTION)` lookup.
- `Slots` (`slots.dfy`): `is_time_to_post`, written as a method with its early returns
  (`IsTimeToPost`). It is proved equal to a recursive search (`FirstDue`).
- `Selection` (`selection.dfy`): the posted-name set and the first-unposted loop of the
  main program (`SelectNext`). The loop is proved equal to `FirstUnposted`.
- `Run` (`run.dfy`): the main program up to the download, as one function (`PlanRun`)
  and as the sequence of the method calls (`DecideRun`). Also here: the at-most-once
  property across runs.

Behaviour worth knowing, all taken from the code:

- A time entry that does not split into exactly two integer pieces is skipped silently.
  Examples: `""`, `"9"`, `"09:00:00"`, `"ab:cd"`.
- An entry that parses but is not a clock time (hour outside 0-23 or minute outside
  0-59) is different. The `datetime(...)` call that rejects it is outside the `try`, so
  the check, and the whole run, aborts. The model returns `SlotOutOfRange` for this case.
  No malformed or out-of-range entry is dropped when the schedule is loaded: both kinds of entry reach `is_time_to_post`.
- The tolerance window is closed and symmetric. The first entry in list order decides,
  and the slot returned is the original string.
- A slot is always placed on now's own date, so there is no wrap-around at midnight.
- `read_posted_log` reads only column A of the first 9,999 log rows (`Posted!A2:A10000`).
  A name appended after that is never read back. So once the log is that long, every
  later run over the same listing selects the same video again, and posts it whenever
  it posts (`Run.RepostPastReadLimit`).
- A row whose A cell is empty reads back as an empty row and is dropped. A video named
  `""` is therefore never recorded as posted, and later runs over the same listing keep
  selecting it (`Run.RepostEmptyName`).
- The caption lookup reads the clock a second time. `PlanRun` takes that reading's
  weekday as its own parameter.

## Model

| member | source | states |
|---|---|---|
| `Text.StripSpec` | post_if_due.py:64 | `strip()` gives a contiguous slice of the input: everything cut away before and after it is whitespace, and the slice neither starts nor ends with whitespace. The result is empty exactly when the input is all whitespace. |
| `Text.StripAround` | post_if_due.py:64 | Stripping whitespace from around a text that neither starts nor ends with whitespace gives back exactly that text. |
| `Text.LowerIdempotent` | post_if_due.py:64 | Lower-casing an already lower-cased text changes nothing. |
| `Text.LowerChangesOnlyCapitals` | post_if_due.py:64 | `Lower` (an ASCII-only `lower()`) keeps the length and changes a character exactly when it is an ASCII capital, which becomes its small letter. |
| `Text.StripIdempotent` | post_if_due.py:64 | Stripping twice is the same as stripping once. |
| `Text.Split` | post_if_due.py:90 | `split(sep)` gives at least one piece. No piece contains `sep`. Joining the pieces with `sep` gives back the input. |
| `Text.SplitWithoutSeparator` | post_if_due.py:90 | A text without the separator splits into exactly itself. |
| `Text.SplitAtFirst` | post_if_due.py:90 | The text before the first separator is the first piece. The rest splits on its own. |
| `Text.ParseInt` | post_if_due.py:90 | `int()` succeeds exactly when the text holds none of U+001C-U+001F and its stripped form is an optional sign followed by at least one digit, so `"1a"`, `"+"`, `""` and `"\x1c5"` fail. A plain run of digits parses to its decimal value. |
| `Text.ParseIntLiteral` | post_if_due.py:90 | Whitespace other than U+001C-U+001F, an optional `+` or `-`, digits, more such whitespace: parses to the digits' decimal value, negated after `-`. |
| `Text.InfoSeparatorRejected` | post_if_due.py:90 | `"\x1c5"` does not parse, although `strip()` would reduce it to `"5"`. |
| `Text.ParseTwoDigits` | post_if_due.py:90 | Every two-digit field such as "09" parses back to its number. |
| `Calendar.SlotMicros` | post_if_due.py:93 | A valid `hh:mm` lies within the day: from 0 up to, but not including, 24 hours after midnight. |
| `Schedule.TimesOf` | post_if_due.py:65-68 | A row yields at most three time entries, from columns 2-4. Each one is a present, non-empty raw cell, stripped. There are three exactly when all three cells are non-empty. |
| `Schedule.TimesOfColumns` | post_if_due.py:65-68 | A row yields one entry per present, non-empty cell in columns 2-4, in column order: the stripped cell of column `k` comes right after the entries of the kept columns before it. |
| `Schedule.CaptionOf` | post_if_due.py:69 | A present, non-empty fifth cell is the caption. Otherwise (no fifth cell, or an empty one) the caption is the default. |
| `Schedule.ReadSchedule` | post_if_due.py:60-72 | The loop builds exactly the fold over the rows (`ScheduleOf`, `CaptionsOf`). Both maps have the same days. No day has more than three entries. |
| `Schedule.RowDayScheduled` | post_if_due.py:63-70 | Every non-empty row puts its stripped, lower-cased first cell into the schedule. |
| `Schedule.ScheduleEntry` | post_if_due.py:62-71 | Every scheduled day comes from a non-empty row. That is the last row filed under the day, and it gives the day's times and caption. |
| `Schedule.DecidedByExtends` | post_if_due.py:70-71 | An empty row, or a row for another day, does not change a day's entry. |
| `Schedule.LastRowWins` | post_if_due.py:70-71 | The last non-empty row for a day decides its times and its caption. Earlier rows for that day are overwritten. |
| `Schedule.CaptionDayScheduled` | post_if_due.py:70-71 | The schedule map and the caption map always have the same days. |
| `Schedule.CaptionFallback` | post_if_due.py:200 | The caption for a weekday is the default or the fifth cell of a row filed under that weekday. With no row for the weekday it is the default. |
| `Schedule.BlankTimeCellKept` | post_if_due.py:66-68 | A whitespace-only time cell survives as `""`. An empty cell is dropped. |
| `Schedule.DayKeyNormalised` | post_if_due.py:64 | `" Monday "` is filed under `"monday"`, the name the weekday lookup uses. |
| `Slots.ParseFormattedSlot` | post_if_due.py:90 | Every two-digit "HH:MM" entry parses to its hour and minute. |
| `Slots.FirstStop` | post_if_due.py:88-96 | Finds the first entry the search does not move past. Every earlier entry is unparsable, or valid but outside the tolerance. |
| `Slots.FirstDueIsFirstStop` | post_if_due.py:88-97 | The check returns the first entry that does not pass, as its original string, when it is a clock time (due). It returns the out-of-range error when that entry is not a clock time, and not-due when every entry passes. |
| `Slots.FirstDueAppend` | post_if_due.py:88-97 | Once an entry decides, later entries are never examined. A prefix that decides nothing does not affect the result. |
| `Slots.IsTimeToPost` | post_if_due.py:84-97 | The loop with its early returns computes `FirstDue` on today's entries. A weekday missing from the schedule gives not-due. A due or out-of-range slot is one of today's entries. |
| `Slots.SingleSlotWindow` | post_if_due.py:93-95 | A single slot is due exactly when now is in the closed window [slot − tolerance, slot + tolerance]. Otherwise it is not due. |
| `Slots.WrongPieceCountSkipped` | post_if_due.py:89-92 | `""`, `"9"` and `"09:00:00"` do not parse. |
| `Slots.NonNumericSkipped` | post_if_due.py:89-92 | `"ab:cd"` does not parse. |
| `Slots.InfoSeparatorSlotSkipped` | post_if_due.py:89-92 | `"09\x1c:00"` does not parse, because `int()` rejects the U+001C in its first piece. |
| `Slots.MalformedEntriesSkipped` | post_if_due.py:88-92 | A day holding only those entries is not due and raises nothing. |
| `Slots.NineOClockParses` | post_if_due.py:90 | `"09:00"` parses to (9, 0). |
| `Slots.MidnightMinusOneParses` | post_if_due.py:90 | `"23:59"` parses to (23, 59). |
| `Slots.TwentyFourParses` | post_if_due.py:90 | `"24:00"` parses to (24, 0). It is not skipped. |
| `Slots.OutOfRangeAborts` | post_if_due.py:93 | `["24:00", "09:00"]` at 09:00 aborts with the out-of-range error and does not reach the due entry. |
| `Slots.NoMidnightWraparound` | post_if_due.py:93 | At 00:01, `"23:59"` is not due with a 150 s tolerance. |
| `Slots.MondayNineExamples` | post_if_due.py:93-96 | With "09:00" and a 150 s tolerance, 09:02:00 is due and 09:03:30 is not. |
| `Selection.PostedSetAppend` | post_if_due.py:77 | One more non-empty returned row adds exactly its first cell to the set that `set(v[0] for v in vals if v)` builds. |
| `Selection.ReadPostedLogNames` | post_if_due.py:74-77 | A read finds exactly the non-empty A cells among the first 9,999 log rows. It never finds `""`. |
| `Selection.ReadPostedLogAppend` | post_if_due.py:74-82 | The name of a row appended to a log shorter than 9,999 rows is read back by later runs when it is non-empty. Once the log has 9,999 rows, later reads see nothing of the appended row or anything after it. A read never loses a name as the log grows. |
| `Selection.EmptyNameNotRead` | post_if_due.py:74-82 | A row appended with an empty name leaves what the read finds unchanged. |
| `Selection.SelectNext` | post_if_due.py:186-190 | The loop returns none exactly when every listed name is posted. Otherwise it returns a listed file whose name is not posted and before which every file is posted. It agrees with `FirstUnposted`. |
| `Selection.FirstUnpostedIndex` | post_if_due.py:186-193 | The same two facts for the specification function `FirstUnposted`. |
| `Selection.LeastUnpostedName` | post_if_due.py:186-190 | On a listing sorted by name (line 40), the chosen file has the least unposted name. |
| `Selection.NeverReselected` | post_if_due.py:186-190 | A name in the posted set is never selected, from any listing. |
| `Selection.FirstUnpostedGrows` | post_if_due.py:186-190 | Names that become posted leave the choice unchanged unless the chosen name is among them. |
| `Selection.SelectsB` | post_if_due.py:186-190 | From a, b, c with a posted, b is chosen. |
| `Run.DecideRun` | post_if_due.py:177-200 | The main program's steps compute `PlanRun`. A post is always of a listed file that is not yet posted. |
| `Run.PostIsJustified` | post_if_due.py:177-200 | A planned post is the first unposted file in listing order. Its slot is one of today's entries. Its caption is the default or a fifth cell of a row for the caption's weekday. |
| `Run.AtMostOncePerName` | post_if_due.py:184-204 | Suppose a file with a non-empty name is posted and logged in a log of fewer than 9,999 rows. Then no later run posts a file of that name, at any time, for any listing, and with any schedule sheet, default caption and tolerance. |
| `Run.RepostPastReadLimit` | post_if_due.py:75-82 | Once the log has 9,999 rows, logging a post changes nothing a later read sees. Every later run over the same listing, at any time and with any configuration, selects the same file, and posts it whenever it posts. |
| `Run.RepostEmptyName` | post_if_due.py:75-82 | A posted file named `""` is never read back from the log. Every later run over the same listing, at any time and with any configuration, selects it again, and posts it whenever it posts. |
| `Run.DefaultsExample` | post_if_due.py:19-21 | With the default caption and the 150 s default tolerance, a Monday "09:00" row without a caption, at 09:02 with an empty log, posts the only listed video for "09:00" with the default caption. |

## Left out

- Configuration and client setup (lines 15-33): the environment variables, the exit on a missing variable, and the Google client construction. The defaults for the caption and the tolerance are constants in `Run`, used by `Run.DefaultsExample`.
- Drive listing and download (lines 36-54). These are network calls and temporary files. The sort by name (line 40) appears only as the `SortedByName` requirement of `LeastUnpostedName`.
- Sheets reads and the append in `log_posted` (lines 58, 75, 80-82). The model takes the whole log sheet as input and reduces it to what the read returns: column A of the first 9,999 rows, with an empty A cell read as an empty row. It models the appended row (`PostedRow`), but not the remote write or its UTC timestamp, which is a parameter.
- `upload_to_tiktok` (lines 99-174): decryption, file I/O and browser automation. As written, its body is mis-indented (line 100 sits at module level), so the module does not compile at all. A `Post` outcome is where the model stops.
- Time zones: the `pytz` localisation of the slot instant, and the DST gaps and overlaps it can create. The clock is a weekday plus microseconds since local midnight.
- The float `total_seconds()` (line 94). The model compares whole microseconds against `tolerance × 10^6`. Within one day the two comparisons give the same answer.
- Exit codes and logging (lines 181-182, 192-193, 197-199, 205-206).
- `Text.Lower`: folds only ASCII letters. Python's `lower()` also folds non-ASCII letters, and can lengthen a string (`"İ"` lowers to two code points).
- `Text.ParseInt`: accepts ASCII digits with an optional sign and surrounding whitespace (Python's `isspace()` set less U+001C-U+001F, which `int()` rejects). Python's `int()` also accepts underscores between digits and non-ASCII decimal digits. Since Python 3.11 it also rejects text of more than 4,300 digits, which the model parses.
- `Run.AtMostOncePerName`: holds only for a log of fewer than 9,999 rows and a file with a non-empty name. `read_posted_log` reads only `Posted!A2:A10000` (line 75) and drops rows with an empty A cell (line 77). `Run.RepostPastReadLimit` and `Run.RepostEmptyName` show the post is repeated in those cases.
- Locale: weekday names are the English ones.
- The Sheets range `A2:E8` bounds the schedule to 7 rows. The model accepts any number of rows.
- Concurrent runs are not modelled. The at-most-once property assumes the previous run's log row is appended before the next run reads the log.
