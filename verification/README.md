# Time Tracker core in Dafny

This project models the core of a small Streamlit time tracker. A user
starts a *work session* (a day). They track *project entries* inside it,
each filed under a *category*. They then look at reports: hours per day,
and hours and share per category. Three parts of the program are modelled:

- **The store** (`db.py`): three SQLite tables, `work_sessions`,
  `project_entries` and `categories`. They are modelled as one immutable
  value. Rows sit in maps keyed by their AUTOINCREMENT ids, with the next id
  to hand out; categories are keyed by their UNIQUE name and hold the
  `active` flag. The foreign key from entries to sessions is an invariant of
  the type `Store.Db`. Every statement `db.py` issues is a pure transition or
  query over that value. This covers seeding, the category operations, the
  rename cascade, starting and ending sessions and entries, updates, the
  cascading delete, find-or-create of a day's session, and the range and
  listing queries.
- **Time text** (`services.py`, copied verbatim in `app.py`): the
  `H:MM` / `HH:MM[:SS]` parser and the `HH:MM` formatter, over `seq<char>`.
- **Report arithmetic and page logic** (`services.py`, `app.py`):
  - the per-day and per-category sums, and the category shares;
  - the default Sunday-to-today report range and its clamping;
  - the guards the Tracker and Admin pages put around each store call.

Times are integer seconds of local wall-clock time counted from
1970-01-01T00:00. Days are integer day numbers: `DayOf(t) = t / 86400`, and
day 0 was a Thursday. "Now" is always a parameter. Durations are integer
seconds, not rounded hours.

`app.py:160-184` repeats the logic of `services.py:45-61`. The same members (`TimeText.ParseTimeText`, `TimeText.FormatTimeValue`) model
both copies. `app.py:340-357` and `app.py:401-413` likewise repeat the
arithmetic of `services.py:174-195` and `services.py:230-250`, and are
modelled by `Reports.DailyHoursSummary` and `Reports.CategoryBreakdown`.

Modules, one per file:

| file | module | models |
|---|---|---|
| `wrappers.dfy` | `Wrappers` | `Option`, `Result` |
| `text.dfy` | `Text` | `str.strip`, ASCII digits, `int()` of digits, code-point string order |
| `time_text.dfy` | `TimeText` | `parse_time_text`, `format_time_value` |
| `time_text_examples.dfy` | `TimeTextExamples` | worked parser inputs |
| `clock.dfy` | `Clock` | day numbers, weekday, `datetime.combine`, `format_duration_hours` |
| `seqs.dfy` | `Seqs` | filtering, sorting, arg-max and sums over sequences (helpers for `WHERE`, `ORDER BY` and the report sums) |
| `store.dfy` | `Store` | the tables and every `db.py` statement |
| `store_facts.dfy` | `StoreFacts` | properties relating several store operations |
| `reports.dfy` | `Reports` | `fetch_daily_hours_summary`, `fetch_category_breakdown` |
| `pages.dfy` | `Pages` | `_get_date_range`, `render_tracker` and `render_admin` decisions |
| `session_record.dfy` | `SessionRecord` | `WorkSession(**row)` as written (see Findings) |

## Model

| member | source | states |
|---|---|---|
| Text.Strip | services.py:51 | the stripped text has no whitespace (Python's `str.isspace` set) at either end and is no longer than the input |
| Text.StripPadded | services.py:51 | stripping whitespace padding from a text with no whitespace at its ends gives exactly that text |
| Text.StripIdempotent | db.py:187 | stripping an already stripped project name changes nothing, so the page's strip and the store's strip agree |
| Text.TwoDigits | services.py:45-47 | a number below 100 renders as exactly two ASCII digits whose decimal value is that number (`%H`, `%M`) |
| Text.SortedNames | db.py:91-99 | the names come out strictly ascending in code-point order, and exactly the given names are listed |
| TimeText.Lex | services.py:19 | a match yields well-formed fields (1–2 digit hour, 2-digit minute, optional 2-digit seconds) that spell the text exactly |
| TimeText.LexJoin | services.py:19 | every text the pattern describes is matched, with the very fields that spell it |
| TimeText.LexNoneIff | services.py:19 | the pattern refuses a text iff no well-formed set of fields spells it |
| TimeText.ParseTimeText | services.py:50-61 | a result always has hour < 24, minute < 60 and second 0; the "malformed" error happens iff the stripped text is not of the accepted shape |
| TimeText.ParseShaped | services.py:50-61 | for any padded text of the accepted shape: out-of-range hour or minute is refused, then non-zero seconds, and otherwise the time with second 0 is returned |
| TimeText.FormatTimeValue | services.py:45-47 | the text is five characters `DD:DD` whose two numbers are the hour and minute, or 00 and 00 when no time is given |
| TimeText.FormatNone | services.py:46 | no time renders as `"00:00"` |
| TimeText.FormatDropsSeconds | services.py:46 | the seconds never affect the rendered text |
| TimeText.ParseFormat | services.py:45-61 | parsing a formatted time gives it back, for every time with zero seconds |
| TimeText.FormatParse | services.py:45-61 | every accepted text formats to a text that parses to the same time |
| TimeTextExamples.EmptyRefused | services.py:51-53 | the empty text is malformed |
| TimeTextExamples.LettersRefused | services.py:51-53 | `abc` is malformed |
| TimeTextExamples.ShortMinuteRefused | services.py:19 | `12:3` (one-digit minute) is malformed |
| TimeTextExamples.LongHourRefused | services.py:19 | `123:45` (three-digit hour) is malformed |
| TimeTextExamples.ExtraFieldRefused | services.py:19 | `12:30:00:00` (a fourth field) is malformed |
| TimeTextExamples.HourOutOfRange | services.py:57-58 | `25:00` is out of range |
| TimeTextExamples.MinuteOutOfRange | services.py:57-58 | `12:60` is out of range |
| TimeTextExamples.SecondsRefused | services.py:59-60 | `12:30:05` is refused for its non-zero seconds |
| TimeTextExamples.PaddedAccepted | services.py:50-61 | ` 9:05 ` parses to 09:05:00 |
| TimeTextExamples.ZeroSecondsAccepted | services.py:59-61 | `23:59:00` parses to 23:59:00 |
| Clock.DayOf | db.py:141 | the day of a timestamp is the day whose 86400 seconds contain it |
| Clock.Midnight | db.py:286 | the first second of a day lies on that day |
| Clock.Combine | app.py:453-455 | a day with a time of day is a moment of that day, hour·3600 + minute·60 + second after its midnight |
| Clock.CombineInjective | app.py:453-455 | two valid times of day combined with the same day give the same moment only if they are equal |
| Clock.Weekday | app.py:304 | `date.weekday()` is below 7 |
| Clock.WeekdayNext | app.py:304 | the next day has the next weekday, Sunday (6) wrapping to Monday (0), and the weekday repeats every 7 days |
| Clock.DurationSeconds | services.py:36-42 | no start gives 0; otherwise the end, or now when there is no end, minus the start |
| Clock.DurationMonotonic | services.py:36-42 | a later end never gives a shorter duration |
| Clock.RunningDurationMonotonic | services.py:36-42 | a running interval measured at a later now is never shorter |
| Clock.DurationNonNegative | services.py:36-42 | a finished duration is non-negative iff its end is not before its start |
| Clock.DurationAdditive | services.py:36-42 | splitting an interval at any moment splits its duration into the two parts |
| Store.InitDb | db.py:83-88 | an empty category table receives exactly Programming, Meetings and Marketing, all active; a non-empty one leaves the database unchanged; neither id counter moves |
| Store.GetCategories | db.py:91-99 | names strictly ascending; exactly the category rows, restricted to active ones unless inactive are requested |
| Store.AddCategory | db.py:102-106 | a known name changes nothing; a new name is added active; no other category changes; neither id counter moves |
| Store.SetCategoryActive | db.py:109-114 | only the named row's flag changes, to the given value; an unknown name changes nothing; neither id counter moves |
| Store.RelabelEntries | db.py:120-123 | every entry filed under the old name is filed under the new one, and every other entry is untouched |
| Store.RenameCategory | db.py:117-123 | fails with a UNIQUE violation and no change iff old and new are both rows and differ; otherwise the row is renamed (keeping its flag), every entry under the old name moves whether or not the old name is a row, and nothing else changes; on success neither id counter moves |
| Store.InsertSession | db.py:139-142 | the new row takes the next session id (above every existing id), with no end and no notes; the session counter moves on by one, the entry counter stays, and nothing else changes |
| Store.StartSession | db.py:136-146 | a new running session under the next session id, fresh and above every existing id, dated the day of now and starting at now; the session counter moves on by one; every other row is unchanged |
| Store.EndSession | db.py:149-154 | only that session's end is set; an unknown id changes nothing; neither id counter moves |
| Store.GetActiveSession | db.py:126-133 | none iff no session is running; otherwise a stored running session whose start is the latest among running sessions |
| Store.UpdateSession | db.py:231-246 | all columns of that session are replaced; other rows unchanged; an unknown id changes nothing; neither id counter moves |
| Store.DeleteSession | db.py:249-251 | the session is removed with every entry that belongs to it (ON DELETE CASCADE, db.py:72); all other rows are unchanged; neither id counter moves |
| Store.EnsureSessionForDate | db.py:277-294 | if the day has sessions, the database is unchanged and the earliest-starting one is returned; otherwise a new running session starting at the day's midnight is added and the session counter moves on by one |
| Store.ListSessionsBetween | db.py:203-213 | exactly the stored sessions dated within the inclusive range, each once, by non-decreasing date |
| Store.ListAllSessions | db.py:318-323 | every stored session once, date descending and, within a date, start descending |
| Store.InsertEntry | db.py:65-73 | fails with a foreign-key violation iff the session does not exist; otherwise adds exactly one entry under the next entry id, fresh and above every existing id, and only the entry counter moves on |
| Store.StartProjectEntry | db.py:174-192 | a running entry from now, with the stripped project name, in the given session; fails iff that session does not exist |
| Store.AddManualProjectEntry | db.py:297-315 | an entry with the given name, category, start and end; fails iff the session does not exist |
| Store.EndProjectEntry | db.py:195-200 | only that entry's end is set; an unknown id changes nothing; neither id counter moves |
| Store.GetActiveProjectEntry | db.py:157-171 | none iff no entry (of the given session, when one is given) is running; otherwise such an entry with the latest start |
| Store.UpdateProjectEntry | db.py:254-269 | name, category, start and end are replaced and the entry stays in its session; other rows unchanged; neither id counter moves |
| Store.DeleteProjectEntry | db.py:272-274 | only that entry is removed; neither id counter moves |
| Store.JoinAll | db.py:219-222 | every stored entry once, joined with its session's date |
| Store.JoinDates | db.py:220-222 | a row is in the join iff its entry is in the input and its date is that entry's session's date; distinct entries give distinct rows |
| Store.ListProjectEntriesBetween | db.py:216-228 | exactly the entries whose session is dated within the inclusive range, each once, by non-decreasing start |
| Store.ListAllProjectEntries | db.py:326-336 | every entry once with its session's date, start descending |
| StoreFacts.InitDbIdempotent | db.py:83-88 | seeding twice is seeding once |
| StoreFacts.FreshCategories | db.py:83-99 | a fresh database lists exactly the three defaults as active categories |
| StoreFacts.AddCategoryIdempotent | db.py:102-106 | adding a name twice is adding it once, and it is listed afterwards |
| StoreFacts.RenameMovesEveryEntry | db.py:117-123 | after a rename no entry is under the old name, and every entry that was is under the new name |
| StoreFacts.RenameRoundTrip | db.py:117-123 | renaming to an unused name and back restores the whole database |
| StoreFacts.StartSessionActivates | db.py:126-146 | starting a session while none runs makes it the active session, and the only running one |
| StoreFacts.StartThenEndLeavesNoneActive | db.py:126-154 | starting then ending a session leaves no active session |
| StoreFacts.EndSessionKeepsRule | db.py:149-154 | ending a session never breaks "at most one running session" |
| StoreFacts.ActiveSessionIsTheRunningOne | db.py:126-133 | with at most one running session, the active session is that one |
| StoreFacts.EnsureSessionIdempotent | db.py:277-294 | a second find-or-create for the same day returns the same session and changes nothing |
| StoreFacts.DeleteSessionCascades | db.py:249-251 | after a delete no listed entry belongs to the session, and every other entry is still listed |
| StoreFacts.EndEntryKeepsRule | db.py:195-200 | ending an entry never breaks "one running entry per session" |
| StoreFacts.DeletedSessionIdNotReused | db.py:58 | after a session is deleted, the next session started takes the counter's id, never the deleted one (AUTOINCREMENT) |
| StoreFacts.DeletedEntryIdNotReused | db.py:66 | after an entry is deleted, the next entry started takes the counter's id, never the deleted one (AUTOINCREMENT) |
| StoreFacts.StartThenDeleteSession | db.py:249-251 | deleting the session just started restores every table; only the session counter has moved on |
| StoreFacts.StartThenDeleteEntry | db.py:272-274 | deleting the entry just started restores every table; only the entry counter has moved on |
| Reports.GroupSum | services.py:190 | one row per distinct key, keys strictly ascending, each row's value the sum of the values under its key, total preserved (both `groupby(...).sum()` calls, services.py:190 and services.py:239) |
| Reports.AddToSums | services.py:190 | adding one value to the groups raises its key's sum and the total by that value and leaves every other key's sum as it was |
| Reports.RowIsKeySum | services.py:239 | in grouped rows, a row's value is everything filed under its key (for the daily grouping at services.py:190 as well) |
| Reports.DailyHoursSummary | services.py:174-195 | no sessions gives no rows and 0; otherwise one row per distinct session date, ascending, each the seconds worked that day, and the total equals the rows' sum and all sessions' sum |
| Reports.FetchDailyHoursSummary | services.py:174-195 | no rows iff no session is dated in the range; the row dates are exactly the dates in the range that some stored session carries, ascending; each row is the seconds of every stored session dated that day (over the full table scan, not the range listing); the total is the sum of the rows |
| Reports.DailyOfListing | services.py:175-190 | the daily table of any listing holding exactly the rows dated in the range has the in-range dates of the table as its keys and each day's seconds over the full scan as its values |
| Reports.ListedSecondsOn | services.py:175-190 | for a day in the range, the range listing and the full scan count the same seconds |
| Reports.ListedDates | services.py:175-190 | the dates of the range listing are the in-range dates that some row carries |
| Reports.NoSessionsInRange | services.py:175-177 | the range query is empty iff no stored session is dated in the range |
| Reports.CategoryBreakdown | services.py:230-250 | none iff there are no entries; otherwise one row per distinct category, ascending, with its seconds summed and its share of the total (0 when the total is 0) |
| Reports.ShareRows | services.py:241-245 | each row keeps its category and seconds and gets its share of the rows' total |
| Reports.ShareTotalScaled | services.py:241-245 | shares of a common non-zero total add up to the rows' seconds over that total |
| Reports.SharesOfOwnTotal | services.py:241-245 | shares of a non-zero total add up to 1; with a zero total every share is 0 |
| Reports.SharesSumToOne | services.py:230-250 | the breakdown's shares add up to 1 when any time was worked, and are all 0 otherwise |
| Reports.FetchCategoryBreakdown | services.py:230-250 | none iff no entry's session is dated in the range; otherwise the categories are exactly those filed on such entries, ascending; each row's seconds are the seconds of every such entry under its category (over the full join, restricted to the range); each share is the row's seconds over the table's, and the shares add up to 1 unless no second was worked |
| Reports.ListedEntriesBreakdown | services.py:230-250 | the category table of the range listing, read against the stored entries and sessions, as stated for `FetchCategoryBreakdown` |
| Reports.BreakdownOfListing | services.py:231-245 | the category table of any listing holding exactly the joined rows dated in the range has those rows' categories and their in-range seconds over the full join |
| Reports.ListedSecondsIn | services.py:231-239 | the range listing and the full join restricted to the range count the same seconds for every category |
| Reports.ListedCategories | services.py:231-239 | the categories of the range listing are the categories of the entries whose session is dated in the range |
| Seqs.SumsAgree | services.py:239 | a sum does not depend on the order of the rows: two listings without repeats holding the same rows of non-zero weight have the same sum |
| Reports.NoEntriesInRange | services.py:231-233 | the entry range query is empty iff no entry's session is dated in the range |
| Pages.DefaultWeekStart | app.py:303-305 | the default start is a Sunday, 0 to 6 days before today |
| Pages.DefaultWeekStartIsLatestSunday | app.py:303-305 | no Sunday lies after the default start and on or before today |
| Pages.SelectRange | app.py:313-316 | the start is kept; the end is kept unless it is before the start, when it becomes the start; so start ≤ end |
| Pages.SelectRangeIdempotent | app.py:313-316 | an ordered range is kept as selected |
| Pages.DefaultRange | app.py:302-316 | the opening range ends today and starts on the latest Sunday |
| Pages.TrackerStep | app.py:200-267 | a button press never breaks "at most one running session" nor "one running entry per session"; it adds a session iff Start Day is pressed with no active session; it adds an entry iff a non-blank name is submitted while the active session runs no entry, and that entry is running from now under the stripped name; Stop Project Entry keeps the active session and, with one running entry per session, leaves it running none |
| Pages.StartDayPressed | app.py:210-214 | with no active session, Start Day adds exactly one session, under an id no row had; it becomes the active session, running from now and dated today with no notes, the only one running; every other row is unchanged |
| Pages.StopDayPressed | app.py:205-209 | Stop Day sets the session's end to now and changes no other row nor any id counter |
| Pages.StartEntryPressed | app.py:249-269 | an entry is added iff the session runs none and the stripped name is not blank, and it is running from now under the stripped name |
| Pages.StopEntryPressed | app.py:244-247 | the session's running entry (the latest-starting one) has its end set to now and no other row changes; with none running nothing changes; one running entry per session is kept |
| Pages.AddingToIdleSessionKeepsRule | app.py:229-267 | adding an entry to a session that runs none keeps one running entry per session |
| Pages.TrackerKeepsRules | app.py:200-267 | any sequence of Tracker button presses keeps both running rules |
| Pages.FreshTrackerKeepsRules | app.py:200-267 | from a freshly seeded database, every Tracker-only history has at most one running session and one running entry per session |
| Pages.StopDayEndsTheDay | app.py:205-209 | with at most one running session, Stop Day leaves none active |
| Pages.StopEntryEndsTheEntry | app.py:244-247 | with one running entry per session, Stop Project Entry keeps the active session active and leaves it running no entry |
| Pages.EndingTheOnlyOpenEntry | app.py:244-247 | ending a session's one running entry leaves that session running none |
| Pages.AdminAddCategory | app.py:468-475 | a blank name changes nothing; the categories afterwards are exactly the old ones plus the stripped name when it is not blank; existing flags are kept and a new category is active, non-blank and stripped |
| Pages.AdminToggleCategory | app.py:478-491 | the selected category's flag is flipped and no other category changes |
| Pages.ToggleTwiceRestores | app.py:478-491 | toggling twice restores the database |
| Pages.AdminRenameCategory | app.py:492-499 | a blank or unchanged stripped name changes nothing; otherwise the rename is issued with the stripped name |
| Pages.AdminRenameFailsIff | app.py:492-499 | the Rename button fails exactly when the stripped new name is non-blank, differs, and is another existing category |
| Pages.TimeOn | app.py:453-455 | a time text gives a moment iff it parses, and that moment lies on the form's day |
| Pages.TimeOnFormatted | app.py:160-184 | a time the form displays reads back as the same moment |
| Pages.SubmitManualEntry | app.py:662-683 | a blank name is refused first, then unparsable times; when added, the entry has the stripped name, both times on the entry date, and no end iff "Set end time" is unticked |
| Pages.SubmitSessionEdit | app.py:539-556 | fails iff a needed time text does not parse; otherwise the session gets the edited date, both times on it, no end iff marked running, and notes absent iff empty; nothing else changes |
| Pages.SubmitEntryEdit | app.py:609-626 | fails iff a needed time text does not parse; otherwise the entry keeps its id and session, takes name and category as entered, its start is the start text on the day it started, its end is the end text on that day or none iff marked running; nothing else changes |
| Pages.SaveUnchangedSession | app.py:539-556 | submitting texts that read back as the stored session, running or not and with or without notes, changes nothing |
| Pages.SessionEditRoundTrip | app.py:520-556 | saving a session through the edit form as it shows it (its times, "in progress" ticked iff it has no end, absent notes as empty text) leaves the database unchanged, for every session whose stored times are whole minutes on its date and whose notes are not empty text |
| Pages.SessionEditTruncates | app.py:187-191 | saving a session as the form shows it stores its start and end cut to the minute, so the database is unchanged iff both were whole minutes |
| Pages.UpdateProjectEntryUnchanged | db.py:254-269 | writing an entry's own values back changes nothing |
| Pages.EntryEditRoundTrip | app.py:576-626 | saving an entry through the edit form with its own name, category and displayed times, "in progress" ticked iff it has no end, leaves the database unchanged, when its stored times are whole minutes on the day it started (the select box shows the entry's category whenever it is a category row) |
| Pages.EntryEditTruncates | app.py:187-191 | saving an entry as the form shows it stores its start and end cut to the minute, so the database is unchanged iff both were whole minutes |
| SessionRecord.FirstUnknown | db.py:17-22 | the first column a record does not declare, if any; none iff every column is declared |
| SessionRecord.FromRow | db.py:132 | building a record from a row succeeds iff the row's columns and the record's fields coincide; an unexpected column is named |
| SessionRecord.UnknownSessionColumn | db.py:57-63 | of a `work_sessions` row's columns, `notes` is the one `WorkSession` does not declare |
| SessionRecord.DecodeAsWritten | db.py:17-22 | as written, every session row fails with an unexpected `notes` keyword |
| SessionRecord.GetActiveSessionAsWritten | db.py:126-133 | as written, reading the active session fails iff a session is running |
| SessionRecord.StartSessionAsWritten | db.py:136-146 | as written, the new session is stored and running, and the call still fails |
| SessionRecord.EnsureSessionForDateAsWritten | db.py:277-294 | as written, the call always fails, after storing the new session when the day had none |
| SessionRecord.StartDayBreaksTracker | app.py:200-214 | as written, after Start Day the Tracker's read of the active session fails |
| SessionRecord.FirstStartDayBreaksTracker | db.py:136-146 | the smallest instance: a fresh database and one Start Day |
| SessionRecord.DeclaringNotesFixesDecoding | db.py:17-32 | with `notes` declared, session rows build records, as entry rows already do |

## Left out

- Streamlit rendering, toasts, theming, Plotly charts and `style.py`/`constants.py`: presentation only.
- SQLite connections, PRAGMA and DDL: only their effects are modelled. These are the tables, AUTOINCREMENT ids, UNIQUE names, the enforced foreign key with cascade, and the rollback when a statement fails.
- Time zones, DST and ISO-8601 text: timestamps are integer seconds of local time. String ordering of ISO text is taken to agree with that integer order. `session_date` is a day number rather than text.
- Microseconds: times are whole seconds.
- Seconds through the edit forms: the tracker stores start and end times with their seconds, but the session and entry edit forms show and save whole minutes. So an unchanged save cuts a tracked time to the minute (`Pages.SessionEditTruncates`, `Pages.EntryEditTruncates`), and the edit round trips hold only for whole-minute rows.
- Clock.DurationSeconds: computes exact seconds, not `round(seconds / 3600, 2)` hours, because floating point is not modelled.
- Reports.DailyHoursSummary: sums exact seconds, whereas the source sums per-session hours already rounded to two decimals.
- Reports.CategoryBreakdown: sums and shares exact seconds, whereas the source rounds each entry to two-decimal hours first (services.py:236). So a range whose entries total 17 seconds has a 0.0-hour total and all shares 0 in the source, while the model's single share is 1.
- `pd.to_numeric`/`fillna`, the `hour_total` copy of the rows, date labels and the percent legend text: floating-point and display details.
- The `total_hours` branch of the daily summary: the table has no such column, so the branch is never taken and the model always computes from timestamps.
- Ties in `ORDER BY`: SQLite leaves their order unspecified. The contracts promise only sortedness (or the latest or earliest row); the model itself breaks ties by id.
- `\d` matching non-ASCII Unicode digits: the parser model accepts ASCII digits only.
- `sessions_as_dicts`/`entries_as_dicts`, `get_today_entries_display` and the `services.py` pass-through wrappers (services.py:76-146): conversions or calls straight to the store members above.
- Delete buttons on the Admin page: they call `Store.DeleteSession`/`Store.DeleteProjectEntry` directly, with no page logic.
- Concurrent use from several browser tabs: the "one running session" rule is a property of Tracker-only sequential use (`Pages.TrackerKeepsRules`), not of the store.
- The category select box with no categories: Streamlit's `None` choice would be passed as the category. The model takes the category as a string.

## Findings

| source | as written | input that shows it | evidently intended | confidence | as-written member | corrected member |
|---|---|---|---|---|---|---|
| db.py:17-22 | `WorkSession` declares four fields, but `work_sessions` rows have a fifth column, `notes` (db.py:57-63). So `WorkSession(**row)` raises `TypeError` in `get_active_session`, `start_session` (after its INSERT committed) and `ensure_session_for_date` | a fresh database, then Start Day at any time: the session is stored, `start_session` fails, and every later load of the Tracker fails in `get_active_session` | `WorkSession` declares `notes`, so these calls return the session | high (not executed) | SessionRecord.FirstStartDayBreaksTracker | Store.GetActiveSession |
