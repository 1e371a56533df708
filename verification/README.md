# supper — seating-plan core in Dafny

`supper` builds a weekly office seating plan. It reads the "out of office"
events of a shared calendar, works out who is away on each working day, and
writes a CSV with one row per member of staff and one column per weekday.

This project models the decision logic of that tool as pure Dafny functions
and proves properties about it:

- **Week window** (`Dates.dfy`, from `supper/dates.py`). A reference instant
  maps to the Monday 00:00:00.000000 and Friday 23:59:00 of its week. On
  Saturday and Sunday the result moves on to the following week.
- **Out-of-office aggregator** (`Api.dfy`, from `supper/api.py`). This covers
  the calendar query range, the attendee filter with its organizer fallback,
  single-day versus multi-day classification, first-name resolution, and the
  left fold over events. The fold builds five lists, Monday to Friday.
- **Rendering rules** (`Seating.dfy`, from `supper/__main__.py`). This covers
  the `.csv` suffix rule for the output path, the lower-casing and sorting of
  user names, and the cells of the seating-plan table.
- `Text.dfy` holds the pieces of Python's `str` that the code relies on:
  `split` on one character, `lower`, and string ordering.
- `Wrappers.dfy` holds `Option`.

A timestamp is an integer count of microseconds since 0001-01-01 00:00, a
Monday and the first instant Python's `datetime` can hold. Weekday is then
`(t / DAY) % 7` and time of day is `t % DAY`. The reference instant and the
clock reading are explicit parameters. The events are a parameter too, since
fetching them is network I/O.

The model follows what the code does, even where its comments say
otherwise. These points are easy to miss:

- A first name is the text before the first single space (`split(" ")`).
  It is not split on general whitespace.
- The duplicate check looks up the raw, un-lower-cased first name. So it
  is not case insensitive, although the comment at supper/api.py:162 says
  so.
  - `Api.CapitalisedNameIsAddedAgain` shows "Jane" being added next to an
    existing "jane".
  - `Api.CapitalisedNamesAreNeverSkipped` generalises this: against a
    lower-case list, a capitalised first name is never skipped.
  - `Api.LowerCaseNamesAsCaseInsensitive` shows the two checks agree when
    the names are already lower case.
  - `Api.SameNamesAsCaseInsensitive` proves that, from a lower-case list,
    the two checks give the same *set* of names. Every day list the
    program builds is one. Together with
    `Seating.RowDependsOnlyOnMembership`, this means the CSV is unaffected.
- Day lists are Python lists and may repeat a name. They are not sets.
- A long event counts for a day only when that day's midnight lies
  between its start and its end, both inclusive (supper/api.py:144).
  - An event starting on Wednesday morning does not mark Wednesday.
  - One ending exactly at Wednesday 00:00 does mark Wednesday.
- User names are lower-cased and sorted, but never deduplicated.

## Model

| member | source | states |
|---|---|---|
| `Dates.GetWeekDatetime` | supper/dates.py:19-51 | The Monday is midnight with weekday 0, and Friday is 4 days 23 h 59 min later. The Monday starts the target week: the reference's own week on Monday to Friday, the next week on the weekend. A supplied start decides the result and the clock does not. |
| `Dates.CurrentWeekIsCalendarWeek` | supper/dates.py:34-42 | Before the weekend shift, the Monday is the start of the seven-day block holding the reference. The reference lies weekday days plus time of day after it. |
| `Dates.WorkdayReferenceInWindow` | supper/dates.py:41-47 | For weekday 0-4: Monday <= reference < Monday + 5 days, and the unshifted values are returned. |
| `Dates.ReferenceMayFollowFriday` | supper/dates.py:42 | Friday 23:59:30 falls after the returned Friday, which ends at 23:59:00. |
| `Dates.WeekendRollsForward` | supper/dates.py:45-51 | For weekday 5-6, both values are the unshifted ones plus exactly 7 days. The Monday is after the reference and at most 2 days later. |
| `Dates.SameWindowIffSameTargetWeek` | supper/dates.py:29-51 | Two supplied references get the same pair exactly when they target the same week, whatever the clock reads. |
| `Dates.WeekendSharesNextWeeksWindow` | supper/dates.py:45-51 | A Saturday or Sunday gets the same pair as any working day of the following week. |
| `Api.GetEventRange` | supper/api.py:88-94 | The query covers the given mailbox, from Monday - 14 days to Monday + 21 days. That is 35 days and contains the whole target week. At most 150 events; the five selected fields. |
| `Api.EventOutsideFetchRangeIsIgnored` | supper/api.py:88-89 | An event wholly before or wholly after the fetch range leaves every day list unchanged, so the over-fetch loses nothing. |
| `Text.Split` | supper/__main__.py:72 | Python `split` on one character: at least one piece, no piece contains the separator, and joining the pieces gives back the input. |
| `Text.SplitJoin` | supper/__main__.py:72 | `Split` inverts `Join` on separator-free pieces, so the split is unique. |
| `Text.FirstPiece` | supper/api.py:160 | `split(sep)[0]` is the longest separator-free prefix. |
| `Text.LastPiece` | supper/__main__.py:72 | `split(sep)[-1]` is the longest separator-free suffix. |
| `Text.Lower` | supper/api.py:163 | Same length, no upper-case letters left, and equal to the input ignoring case. An already lower-case input is unchanged. |
| `Api.FirstName` | supper/api.py:160 | The first name is a prefix of the display name with no space, followed by a space or by the end. |
| `Api.AddAttendee` | supper/api.py:160-163 | One attendee's step only appends, at most one entry. The list is left unchanged exactly when the raw first name is already in it. Anything appended is the lower-cased first name. |
| `Api.AddAttendeesToOooList` | supper/api.py:150-164 | Append only: the input list is a prefix of the result. It grows by at most one per attendee. Each new entry is some attendee's lower-cased first name. Each attendee is present afterwards by raw or lower-cased first name. |
| `Api.AddAttendeesCoversEntries` | supper/api.py:159-164 | From an all-lower-case list, the result stays lower case and contains every attendee's lower-cased first name. |
| `Api.CapitalisedNameIsAddedAgain` | supper/api.py:160-163 | Adding "Jane Doe" to `["jane"]` gives `["jane", "jane"]`. |
| `Api.AddAttendeesCaseInsensitive` | supper/api.py:161-163 | Reference check on the lower-cased name. It only appends and keeps a list without repeats free of repeats. |
| `Api.CapitalisedNamesAreNeverSkipped` | supper/api.py:159-163 | The duplicate check is on the raw first name. So against an all-lower-case list, attendees whose first name holds a capital letter are never skipped: the list grows by exactly one entry per attendee. |
| `Api.LowerCaseNamesAsCaseInsensitive` | supper/api.py:159-163 | When every first name is already lower case, the update equals the case-insensitive reference. |
| `Api.SameNamesAsCaseInsensitive` | supper/api.py:160-163 | From a lower-case list, the raw-name check and the case-insensitive check produce the same set of names. |
| `Api.WithoutAddress` | supper/api.py:125 | Keeps exactly the attendees whose address differs from the shared calendar's. A list without that address comes back whole. |
| `Api.WithoutAddressSingle` | supper/api.py:125 | A single attendee is kept exactly when its address is not the shared calendar's. |
| `Api.WithoutAddressAppend` | supper/api.py:125 | Filtering a concatenation is the concatenation of the filtered parts. With the single-attendee case, this fixes the order and repetitions the comprehension keeps. |
| `Api.ResolveAttendees` | supper/api.py:123-130 | No one with the shared address is kept, and every other attendee is kept. The result is `[organizer]` when no attendee is left and the organizer has another address. When some attendee has another address, the result is just the filtered attendees, with no organizer added. It is empty exactly when every attendee and the organizer have the shared address. |
| `Api.WeekdayInsideWindow` | supper/api.py:134-136 | For an instant in Monday..Friday of a valid window, `weekday()` is 0-4 and names the day the instant falls in. |
| `Api.SingleDayCoversOneSlot` | supper/api.py:132-136 | A single-day event covers slot i exactly when it starts inside the window on weekday i. |
| `Api.ProcessEvent` | supper/api.py:123-146 | Five lists in, five out. Each covered day gets `add_attendees_to_ooo_list` of the resolved attendees; every other day is unchanged. Single-day events (end - start <= 1 day) cover the day they start on if that is in the window. Longer events cover day i when start <= Monday + i days <= end. |
| `Api.ProcessEvents` | supper/api.py:119-146 | The loop over events keeps five lists and never removes a name: each input list is a prefix of the output list. |
| `Api.ProcessEventsSound` | supper/api.py:119-146 | Every name added to day i comes from an event covering day i. |
| `Api.ProcessEventsComplete` | supper/api.py:119-146 | From lower-case lists, every covering event's resolved names reach the day, and the lists stay lower case. |
| `Api.Aggregate` | supper/api.py:117-148 | The roster always has exactly five day lists. |
| `Api.AggregateExact` | supper/api.py:117-148 | A name is in day i's list exactly when some event covering day i resolves to an attendee with that lower-cased first name. All entries are lower case. |
| `Api.GetOooList` | supper/api.py:100-148 | With the window taken from the clock, five lists whose members are exactly the names contributed by the events covering each day. |
| `Api.MondayMeetingFillsMondayOnly` | supper/api.py:132-139 | A Monday 09:00-10:00 event for Jane Doe gives `[["jane"], [], [], [], []]`. |
| `Api.WednesdayToFridayFillsLastThreeDays` | supper/api.py:140-146 | An organizer-only event from Wednesday 00:00 to Friday 17:00 fills slots 2, 3 and 4 only. |
| `Api.MorningStartMissesItsFirstDay` | supper/api.py:140-146 | A long event from Wednesday 09:00 to Friday 17:00 covers Thursday and Friday but not Wednesday, since Wednesday's midnight precedes its start. |
| `Api.MidnightEndCoversTheNextDay` | supper/api.py:140-146 | A long event from Monday 00:00 to Wednesday 00:00 covers Monday to Wednesday, since the end comparison is inclusive. |
| `Seating.WithCsvExtension` | supper/__main__.py:72-73 | The result is the path or the path + ".csv". The suffix is added exactly when the text after the last "." is not "csv". The result always ends in a "csv" piece. |
| `Seating.WithCsvExtensionIdempotent` | supper/__main__.py:72-73 | Applying the rule twice is the same as applying it once. |
| `Seating.BareCsvIsKept` | supper/__main__.py:72-73 | The path "csv" is left unchanged. |
| `Seating.OtherExtensionGetsCsv` | supper/__main__.py:72-73 | `stem.ext` with ext other than "csv" gets ".csv" appended. |
| `Seating.UpperCaseCsvGetsExtension` | supper/__main__.py:72-73 | The comparison is case-sensitive: `stem.CSV` becomes `stem.CSV.csv`. |
| `Seating.NoDotGetsCsv` | supper/__main__.py:72-73 | A path without "." (other than "csv") gets ".csv" appended. |
| `Seating.SortStrings` | supper/__main__.py:106 | `sorted`: an ascending permutation of its input. |
| `Seating.NormaliseUsers` | supper/__main__.py:106 | Ascending, lower case, the same multiset as the lower-cased input, and the same length, so duplicates are kept. |
| `Seating.SortedPermutationsAreEqual` | supper/__main__.py:106 | The sorted order is unique: two ascending permutations of one multiset are equal. |
| `Seating.NormaliseUsersIdempotent` | supper/__main__.py:106 | Normalising a normalised list gives it back. |
| `Seating.UserRow` | supper/__main__.py:141-146 | Five cells, each the user's name or "". For a non-empty name, a cell is "" exactly when the user is in that day's list. |
| `Seating.CreateOooCsv` | supper/__main__.py:136-147 | Header Monday..Friday and one row per user, in the order of `users`. Each cell is the user's name or "", and "" exactly when the user is out that day. |
| `Seating.SlotAffectsOnlyItsColumn` | supper/__main__.py:141-146 | Changing one day's list changes no other column. |
| `Seating.RowDependsOnlyOnMembership` | supper/__main__.py:143 | Lists with the same members give the same row, whatever the repetitions. |
| `Seating.BobOutOnTuesday` | supper/__main__.py:139-147 | With Bob out on Tuesday, Alice's row is full and Bob's row is blank only on Tuesday. |

## Left out

- Text.Lower: maps only A to Z. Python's `str.lower` also folds non-ASCII letters.
- Api.Aggregate: requires a valid window (a Monday midnight and the Friday 23:59 after it). The code only ever passes the result of `get_week_datetime`, and an arbitrary window could make `start.weekday()` index past the five lists.
- Dates.GetWeekDatetime: timestamps are unbounded integers. Python's `datetime` raises `OverflowError` outside years 1 to 9999, and that is not modelled.
- Time zones and daylight saving: the code does naive local arithmetic, and so does the model.
- OAuth session creation, token-file handling, the authentication retry and `exit` calls (supper/api.py:29-74, 108-114): network and filesystem plumbing over the O365 library.
- The HTTP request, JSON decoding and URL assembly with `strftime` (supper/api.py:92, 96-98). `Api.GetEventRange` returns the query as data. The service's own overlap filtering and the 150-event truncation are not modelled; the aggregator takes whatever event sequence it is given.
- Timestamp parsing with `strptime` and the trimming of the seventh fractional digit (supper/api.py:121-122). Events carry integer timestamps.
- The warning logged for an in-window single-day event with no attendees (supper/api.py:137-138). It has no effect on the lists.
- `str.format(datetime.now())` in `format_output_path` and its exit on a bad pattern (supper/__main__.py:71, 77-80): library formatting plus clock access. Only the extension rule on the formatted path is modelled.
- argparse, YAML loading, CSV file writing, logging setup and the `main` driver (supper/__main__.py:31-60, 83-121, 135-138, 151-179). `Seating.CreateOooCsv` returns the table rather than writing it.
- supper/__init__.py (format-string constants, logger), seatingplan/__main__.py and run.py (early prototypes whose week function reads the clock directly), and setup.py (packaging).
