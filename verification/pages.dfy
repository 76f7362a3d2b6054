/** The decisions app.py makes around its store calls: the default report
    range, the buttons of the Tracker page, and the category, edit and
    manual-entry forms of the Admin page. Rendering is not modelled; a
    button the page does not show is a command that changes nothing. */
module Pages {
  import opened Wrappers
  import opened Text
  import opened TimeText
  import opened Clock
  import opened Store
  import opened StoreFacts

  // ------------------------------------------------------- report range

  /** The first day of the default report range: the latest Sunday not
      after `today`. */
  function DefaultWeekStart(today: Day): (start: Day)
    ensures Weekday(start) == 6
    ensures today - 6 <= start <= today
  {
    var w := Weekday(today);
    var q := (today + 3) / 7;
    assert today + 3 == 7 * q + w;
    var start := today - (w + 1) % 7;
    WeekdayFromQuotient(start, if w == 6 then q else q - 1, 6);
    start
  }

  /** No Sunday falls strictly between the default start and `today`. */
  lemma DefaultWeekStartIsLatestSunday(today: Day, d: Day)
    requires DefaultWeekStart(today) < d <= today
    ensures Weekday(d) != 6
  {
    var start := DefaultWeekStart(today);
    var q := (start + 3) / 7;
    assert start + 3 == 7 * q + 6;
    WeekdayFromQuotient(d, q + 1, d - start - 1);
  }

  /** The range the Reports page uses: an end before the start collapses
      the range to the start day. */
  function SelectRange(start: Day, end: Day): (r: (Day, Day))
    ensures r.0 == start && r.0 <= r.1
    ensures r.1 == (if start <= end then end else start)
  {
    if start > end then (start, start) else (start, end)
  }

  /** A range that is already ordered is kept as selected. */
  lemma SelectRangeIdempotent(start: Day, end: Day)
    ensures var r := SelectRange(start, end); SelectRange(r.0, r.1) == r
  {
  }

  /** The range the Reports page opens with: this week up to today. */
  function DefaultRange(today: Day): (r: (Day, Day))
    ensures r.1 == today && today - 6 <= r.0 <= today && Weekday(r.0) == 6
  {
    SelectRange(DefaultWeekStart(today), today)
  }

  // ------------------------------------------------------------ tracker

  /** The Tracker page's four buttons. */
  datatype TrackerCommand = StartDay | StopDay | StartEntry(project: string, category: string) | StopEntry

  /** What a button press does. Start Day is shown only when no session is
      active, Stop Day only for the active session, the project form only
      when the active session runs no entry, and Stop Project Entry only
      for the running entry; a blank project name only warns. */
  function TrackerStep(db: Db, cmd: TrackerCommand, now: Timestamp): (r: Db)
    ensures AtMostOneOpenSession(db) ==> AtMostOneOpenSession(r)
    ensures AtMostOneOpenEntryPerSession(db) ==> AtMostOneOpenEntryPerSession(r)
    ensures r.categories == db.categories
    ensures r.sessions.Keys != db.sessions.Keys <==> cmd.StartDay? && GetActiveSession(db).None?
    ensures r.entries.Keys != db.entries.Keys <==>
      && cmd.StartEntry? && GetActiveSession(db).Some?
      && GetActiveProjectEntry(db, Some(GetActiveSession(db).value.id)).None?
      && Strip(cmd.project) != []
    ensures forall k :: k in r.entries && k !in db.entries ==>
      && cmd.StartEntry?
      && r.entries[k].project == Strip(cmd.project) && r.entries[k].project != []
      && r.entries[k].start == now && r.entries[k].end.None?
    ensures cmd.StopEntry? && GetActiveSession(db).Some? && AtMostOneOpenEntryPerSession(db) ==>
      && GetActiveSession(r) == GetActiveSession(db)
      && GetActiveProjectEntry(r, Some(GetActiveSession(db).value.id)).None?
  {
    match GetActiveSession(db)
    case None =>
      if cmd.StartDay? then StartDayPressed(db, now) else db
    case Some(s) =>
      match cmd
      case StartDay => db
      case StopDay => StopDayPressed(db, s, now)
      case StartEntry(project, category) => StartEntryPressed(db, s, project, category, now)
      case StopEntry =>
        assert AtMostOneOpenEntryPerSession(db) ==>
          GetActiveSession(StopEntryPressed(db, s, now)) == Some(s) && GetActiveProjectEntry(StopEntryPressed(db, s, now), Some(s.id)).None? by {
          if AtMostOneOpenEntryPerSession(db) {
            StopEntryEndsTheEntry(db, s, now);
          }
        }
        StopEntryPressed(db, s, now)
  }

  /** Start Day: the new session is the active one, running from `now`
      and dated its day, under an id no row had. */
  function StartDayPressed(db: Db, now: Timestamp): (r: Db)
    requires GetActiveSession(db).None?
    ensures AtMostOneOpenSession(r)
    ensures AtMostOneOpenEntryPerSession(db) ==> AtMostOneOpenEntryPerSession(r)
    ensures var a := GetActiveSession(r);
      && a.Some? && a.value.start == now && a.value.date == DayOf(now) && a.value.notes.None?
      && a.value.id !in db.sessions && r.sessions.Keys == db.sessions.Keys + {a.value.id}
    ensures forall k :: k in db.sessions ==> r.sessions[k] == db.sessions[k]
    ensures r.entries == db.entries && r.categories == db.categories
  {
    var (db', s) := StartSession(db, now);
    StartSessionActivates(db, now);
    db'
  }

  /** Stop Day: the given session ends at `now`; no other row changes. */
  function StopDayPressed(db: Db, s: Session, now: Timestamp): (r: Db)
    ensures AtMostOneOpenSession(db) ==> AtMostOneOpenSession(r)
    ensures r.sessions.Keys == db.sessions.Keys
    ensures s.id in db.sessions ==> r.sessions[s.id] == db.sessions[s.id].(end := Some(now))
    ensures forall k :: k in db.sessions && k != s.id ==> r.sessions[k] == db.sessions[k]
    ensures r.entries == db.entries && r.categories == db.categories && SameCounters(r, db)
  {
    assert AtMostOneOpenSession(db) ==> AtMostOneOpenSession(EndSession(db, s.id, now)) by {
      if AtMostOneOpenSession(db) {
        EndSessionKeepsRule(db, s.id, now);
      }
    }
    EndSession(db, s.id, now)
  }

  function StartEntryPressed(db: Db, s: Session, project: string, category: string, now: Timestamp): (r: Db)
    requires s.id in db.sessions
    ensures AtMostOneOpenEntryPerSession(db) ==> AtMostOneOpenEntryPerSession(r)
    ensures r.sessions == db.sessions && r.categories == db.categories
    ensures r.entries.Keys != db.entries.Keys <==> GetActiveProjectEntry(db, Some(s.id)).None? && Strip(project) != []
    ensures forall k :: k in r.entries && k !in db.entries ==>
      && r.entries[k].project == Strip(project) && r.entries[k].project != []
      && r.entries[k].start == now && r.entries[k].end.None?
  {
    if GetActiveProjectEntry(db, Some(s.id)).Some? || Strip(project) == [] then db
    else
      var r := StartProjectEntry(db, s.id, Strip(project), category, now);
      assert r.Ok?;
      var (db', e) := r.value;
      assert forall k :: k in db.entries ==> !OpenIn(db.entries[k], Some(s.id));
      assert AtMostOneOpenEntryPerSession(db) ==> AtMostOneOpenEntryPerSession(db') by {
        if AtMostOneOpenEntryPerSession(db) {
          AddingToIdleSessionKeepsRule(db, db', e);
        }
      }
      StripIdempotent(project);
      assert e.id in db'.entries && e.id !in db.entries;
      assert forall k :: k in db'.entries && k !in db.entries ==> k == e.id;
      db'
  }

  /** Stop Project Entry: the session's running entry ends at `now`; with
      none running nothing changes. */
  function StopEntryPressed(db: Db, s: Session, now: Timestamp): (r: Db)
    ensures AtMostOneOpenEntryPerSession(db) ==> AtMostOneOpenEntryPerSession(r)
    ensures r.sessions == db.sessions && r.categories == db.categories && SameCounters(r, db)
    ensures GetActiveProjectEntry(db, Some(s.id)).None? ==> r == db
    ensures GetActiveProjectEntry(db, Some(s.id)).Some? ==> var e := GetActiveProjectEntry(db, Some(s.id)).value;
      r.entries == db.entries[e.id := e.(end := Some(now))]
  {
    match GetActiveProjectEntry(db, Some(s.id))
    case Some(e) =>
      assert AtMostOneOpenEntryPerSession(db) ==> AtMostOneOpenEntryPerSession(EndProjectEntry(db, e.id, now)) by {
        if AtMostOneOpenEntryPerSession(db) {
          EndEntryKeepsRule(db, e.id, now);
        }
      }
      EndProjectEntry(db, e.id, now)
    case None => db
  }

  /** Adding an entry to a session that runs none keeps one running entry
      per session. */
  lemma AddingToIdleSessionKeepsRule(db: Db, db': Db, e: Entry)
    requires AddsEntry(db, db', e)
    requires forall k :: k in db.entries ==> !OpenIn(db.entries[k], Some(e.sessionId))
    requires AtMostOneOpenEntryPerSession(db)
    ensures AtMostOneOpenEntryPerSession(db')
  {
    forall i, j | i in db'.entries && j in db'.entries && db'.entries[i].end.None? && db'.entries[j].end.None?
                  && db'.entries[i].sessionId == db'.entries[j].sessionId
      ensures i == j
    {
    }
  }

  /** A sequence of button presses, each at its own time. */
  function RunTracker(db: Db, presses: seq<(TrackerCommand, Timestamp)>): Db
    decreases |presses|
  {
    if presses == [] then db
    else RunTracker(TrackerStep(db, presses[0].0, presses[0].1), presses[1..])
  }

  /** Using only the Tracker page, at most one session ever runs and each
      session runs at most one entry. */
  lemma {:induction false} TrackerKeepsRules(db: Db, presses: seq<(TrackerCommand, Timestamp)>)
    requires AtMostOneOpenSession(db) && AtMostOneOpenEntryPerSession(db)
    ensures AtMostOneOpenSession(RunTracker(db, presses))
    ensures AtMostOneOpenEntryPerSession(RunTracker(db, presses))
    decreases |presses|
  {
    if presses != [] {
      TrackerKeepsRules(TrackerStep(db, presses[0].0, presses[0].1), presses[1..]);
    }
  }

  /** From a fresh database, the rules hold after any Tracker-only history. */
  lemma FreshTrackerKeepsRules(presses: seq<(TrackerCommand, Timestamp)>)
    ensures AtMostOneOpenSession(RunTracker(InitDb(Empty), presses))
    ensures AtMostOneOpenEntryPerSession(RunTracker(InitDb(Empty), presses))
  {
    TrackerKeepsRules(InitDb(Empty), presses);
  }

  /** Stop Day ends the active session and leaves no session running when
      at most one ran. */
  lemma StopDayEndsTheDay(db: Db, now: Timestamp)
    requires AtMostOneOpenSession(db)
    ensures GetActiveSession(TrackerStep(db, StopDay, now)).None?
  {
    var active := GetActiveSession(db);
    if active.Some? {
      var s := active.value;
      assert StoredSession(db, s) && s.IsOpen();
      EndingTheOnlyOpenSession(db, s.id, now);
      assert TrackerStep(db, StopDay, now) == StopDayPressed(db, s, now);
    }
  }

  /** Stop Project Entry on the active session keeps it active and leaves
      it running no entry, when each session ran at most one. */
  lemma StopEntryEndsTheEntry(db: Db, s: Session, now: Timestamp)
    requires AtMostOneOpenEntryPerSession(db) && GetActiveSession(db) == Some(s)
    ensures var r := StopEntryPressed(db, s, now);
      GetActiveSession(r) == Some(s) && GetActiveProjectEntry(r, Some(s.id)).None?
  {
    var r := StopEntryPressed(db, s, now);
    SameSessionsSameActive(db, r);
    var active := GetActiveProjectEntry(db, Some(s.id));
    if active.Some? {
      EndingTheOnlyOpenEntry(db, active.value.id, s.id, now);
      assert r == EndProjectEntry(db, active.value.id, now);
    }
  }

  /** The active session depends on the sessions table alone. */
  lemma SameSessionsSameActive(a: Db, b: Db)
    requires a.sessions == b.sessions && a.nextSessionId == b.nextSessionId
    ensures GetActiveSession(a) == GetActiveSession(b)
  {
    assert AllSessions(a) == AllSessions(b);
  }

  /** Ending a session's one running entry leaves it running none. */
  lemma EndingTheOnlyOpenEntry(db: Db, id: nat, sessionId: nat, now: Timestamp)
    requires AtMostOneOpenEntryPerSession(db) && id in db.entries && OpenIn(db.entries[id], Some(sessionId))
    ensures GetActiveProjectEntry(EndProjectEntry(db, id, now), Some(sessionId)).None?
  {
    var r := EndProjectEntry(db, id, now);
    forall k | k in r.entries
      ensures !OpenIn(r.entries[k], Some(sessionId))
    {
      if k != id {
        assert r.entries[k] == db.entries[k];
      }
    }
  }

  /** Ending the one running session leaves none running. */
  lemma EndingTheOnlyOpenSession(db: Db, id: nat, now: Timestamp)
    requires AtMostOneOpenSession(db) && id in db.sessions && db.sessions[id].IsOpen()
    ensures GetActiveSession(EndSession(db, id, now)).None?
  {
    var r := EndSession(db, id, now);
    forall k | k in r.sessions
      ensures !r.sessions[k].IsOpen()
    {
      if k != id {
        assert r.sessions[k] == db.sessions[k];
      }
    }
  }

  // ------------------------------------------------------ admin: categories

  /** Add Category: the name is stripped and a blank one only warns. */
  function AdminAddCategory(db: Db, raw: string): (r: Db)
    ensures Strip(raw) == [] ==> r == db
    ensures forall n :: n in r.categories <==> n in db.categories || (n == Strip(raw) && n != [])
    ensures forall n :: n in db.categories ==> r.categories[n] == db.categories[n]
    ensures forall n :: n in r.categories && n !in db.categories ==> r.categories[n] && Trimmed(n)
    ensures r.sessions == db.sessions && r.entries == db.entries
    ensures SameCounters(r, db)
  {
    var name := Strip(raw);
    if name == [] then db else AddCategory(db, name)
  }

  /** Activate / Deactivate: flips the selected category's flag. */
  function AdminToggleCategory(db: Db, selected: string): (r: Db)
    ensures r.categories.Keys == db.categories.Keys
    ensures selected in db.categories ==> r.categories[selected] == !db.categories[selected]
    ensures forall n :: n in db.categories && n != selected ==> r.categories[n] == db.categories[n]
    ensures r.sessions == db.sessions && r.entries == db.entries
    ensures SameCounters(r, db)
  {
    var isActive := selected in GetCategories(db, false);
    SetCategoryActive(db, selected, !isActive)
  }

  /** Toggling twice restores the category table. */
  lemma ToggleTwiceRestores(db: Db, selected: string)
    ensures AdminToggleCategory(AdminToggleCategory(db, selected), selected) == db
  {
    var r := AdminToggleCategory(AdminToggleCategory(db, selected), selected);
    assert r.categories == db.categories;
  }

  /** Rename: the new name is stripped; a blank name only warns and an
      unchanged name does nothing. */
  function AdminRenameCategory(db: Db, selected: string, raw: string): (r: Result<Db, StoreError>)
    ensures Strip(raw) == [] || Strip(raw) == selected ==> r == Ok(db)
    ensures Strip(raw) != [] && Strip(raw) != selected ==> r == RenameCategory(db, selected, Strip(raw))
  {
    var name := Strip(raw);
    if name == [] || name == selected then Ok(db) else RenameCategory(db, selected, name)
  }

  /** The Rename button fails exactly when the stripped new name is another
      existing category. */
  lemma AdminRenameFailsIff(db: Db, selected: string, raw: string)
    requires selected in db.categories
    ensures AdminRenameCategory(db, selected, raw).Err? <==>
      Strip(raw) != [] && Strip(raw) != selected && Strip(raw) in db.categories
  {
  }

  // ----------------------------------------------------------- admin: forms

  /** Why a form submission stops: a blank project name, a time text that
      does not parse, or a constraint failure of the store. */
  datatype FormError = NameRequired | BadTimeText | Rejected(cause: StoreError)

  /** A time text of the form combined with the form's day. */
  function TimeOn(d: Day, text: string): (r: Option<Timestamp>)
    ensures r.None? <==> ParseTimeText(text).Err?
    ensures r.Some? ==> DayOf(r.value) == d && r.value == Combine(d, ParseTimeText(text).value)
  {
    match ParseTimeText(text)
    case Ok(t) => Some(Combine(d, t))
    case Err(_) => None
  }

  /** Add Manual Entry: a blank name only warns; then the start text, and
      the end text if "Set end time" is ticked, must parse; both are taken
      on the form's entry date. */
  function SubmitManualEntry(db: Db, sessionId: nat, project: string, category: string,
                             entryDate: Day, startText: string, ended: bool, endText: string): (r: Result<(Db, Entry), FormError>)
    ensures Strip(project) == [] ==> r == Err(NameRequired)
    ensures r == Err(BadTimeText) <==>
      Strip(project) != [] && (TimeOn(entryDate, startText).None? || (ended && TimeOn(entryDate, endText).None?))
    ensures r == Err(Rejected(ForeignKeyViolation)) <==>
      Strip(project) != [] && TimeOn(entryDate, startText).Some? && (!ended || TimeOn(entryDate, endText).Some?)
      && sessionId !in db.sessions
    ensures r.Ok? ==> var e := r.value.1;
      && AddsEntry(db, r.value.0, e)
      && e.sessionId == sessionId && e.project == Strip(project) && e.category == category
      && DayOf(e.start) == entryDate && Some(e.start) == TimeOn(entryDate, startText)
      && (e.end.None? <==> !ended)
      && (ended ==> e.end == TimeOn(entryDate, endText) && DayOf(e.end.value) == entryDate)
  {
    if Strip(project) == [] then Err(NameRequired)
    else
      var start := TimeOn(entryDate, startText);
      var end := if ended then TimeOn(entryDate, endText) else None;
      if start.None? || (ended && end.None?) then Err(BadTimeText)
      else
        match AddManualProjectEntry(db, sessionId, Strip(project), category, start.value, end)
        case Ok(added) => Ok(added)
        case Err(e) => Err(Rejected(e))
  }

  /** Update Session: both times are taken on the edited date, the end only
      when the session is not marked running, and empty notes are stored
      as none. */
  function SubmitSessionEdit(db: Db, id: nat, editDate: Day, startText: string, running: bool,
                             endText: string, notesText: string): (r: Result<Db, FormError>)
    ensures r.Err? <==> TimeOn(editDate, startText).None? || (!running && TimeOn(editDate, endText).None?)
    ensures r.Err? ==> r.error == BadTimeText
    ensures r.Ok? ==> r.value.sessions.Keys == db.sessions.Keys
    ensures r.Ok? && id in db.sessions ==> var s := r.value.sessions[id];
      && s.id == id && s.date == editDate && DayOf(s.start) == editDate
      && Some(s.start) == TimeOn(editDate, startText)
      && (s.end.None? <==> running)
      && (!running ==> s.end == TimeOn(editDate, endText) && DayOf(s.end.value) == editDate)
      && (s.notes.None? <==> notesText == [])
      && (s.notes.Some? ==> s.notes.value == notesText)
    ensures r.Ok? ==> forall k :: k in db.sessions && k != id ==> r.value.sessions[k] == db.sessions[k]
    ensures r.Ok? ==> r.value.entries == db.entries && r.value.categories == db.categories
  {
    var start := TimeOn(editDate, startText);
    var end := if running then None else TimeOn(editDate, endText);
    if start.None? || (!running && end.None?) then Err(BadTimeText)
    else
      var notes := if notesText == [] then None else Some(notesText);
      Ok(UpdateSession(db, id, editDate, start.value, end, notes))
  }

  /** Update Entry: the edited times are taken on the day the entry
      started; name and category are stored as entered and the entry stays
      in its session. */
  function SubmitEntryEdit(db: Db, row: Entry, project: string, category: string, startText: string,
                           running: bool, endText: string): (r: Result<Db, FormError>)
    ensures var day := DayOf(row.start);
      r.Err? <==> TimeOn(day, startText).None? || (!running && TimeOn(day, endText).None?)
    ensures r.Err? ==> r.error == BadTimeText
    ensures r.Ok? ==> r.value.entries.Keys == db.entries.Keys
    ensures r.Ok? && row.id in db.entries ==> var e := r.value.entries[row.id];
      && e.id == row.id && e.sessionId == db.entries[row.id].sessionId && e.project == project && e.category == category
      && DayOf(e.start) == DayOf(row.start) && Some(e.start) == TimeOn(DayOf(row.start), startText)
      && (e.end.None? <==> running)
      && (!running ==> e.end == TimeOn(DayOf(row.start), endText) && DayOf(e.end.value) == DayOf(row.start))
    ensures r.Ok? ==> forall k :: k in db.entries && k != row.id ==> r.value.entries[k] == db.entries[k]
    ensures r.Ok? ==> r.value.sessions == db.sessions && r.value.categories == db.categories
  {
    var day := DayOf(row.start);
    var start := TimeOn(day, startText);
    var end := if running then None else TimeOn(day, endText);
    if start.None? || (!running && end.None?) then Err(BadTimeText)
    else Ok(UpdateProjectEntry(db, row.id, project, category, start.value, end))
  }

  /** A time shown by the form reads back as the same moment of the day. */
  lemma TimeOnFormatted(d: Day, t: TimeOfDay)
    requires t.Valid() && t.second == 0
    ensures TimeOn(d, FormatTimeValue(Some(t))) == Some(Combine(d, t))
  {
    ParseFormat(t);
  }

  /** Saving a session's own values back through the edit form leaves it
      as it was, when its stored times are whole minutes: the form shows
      its times, ticks "in progress" when it has no end, and shows absent
      notes as empty text. Notes stored as empty text are the one
      exception: the form saves them as none. Times with seconds are cut
      to the minute (see SessionEditTruncates). */
  lemma SessionEditRoundTrip(db: Db, id: nat, sd: Day, start: TimeOfDay, end: Option<TimeOfDay>, notes: Option<string>)
    requires start.Valid() && start.second == 0
    requires end.Some? ==> end.value.Valid() && end.value.second == 0
    requires notes.Some? ==> notes.value != []
    requires id in db.sessions
    requires db.sessions[id] == Session(id, sd, Combine(sd, start), if end.Some? then Some(Combine(sd, end.value)) else None, notes)
    ensures SubmitSessionEdit(db, id, sd, FormatTimeValue(Some(start)), end.None?, FormatTimeValue(end),
                              if notes.Some? then notes.value else []) == Ok(db)
  {
    var startText, endText := FormatTimeValue(Some(start)), FormatTimeValue(end);
    var notesText := if notes.Some? then notes.value else [];
    TimeOnFormatted(sd, start);
    if end.Some? {
      TimeOnFormatted(sd, end.value);
    }
    SaveUnchangedSession(db, id, sd, startText, end.None?, endText, notesText);
  }

  /** Submitting the edit form with texts that read back as the stored
      session changes nothing. */
  lemma SaveUnchangedSession(db: Db, id: nat, sd: Day, startText: string, running: bool, endText: string, notesText: string)
    requires id in db.sessions
    requires TimeOn(sd, startText).Some? && (!running ==> TimeOn(sd, endText).Some?)
    requires db.sessions[id] == Session(id, sd, TimeOn(sd, startText).value,
      if running then None else TimeOn(sd, endText), if notesText == [] then None else Some(notesText))
    ensures SubmitSessionEdit(db, id, sd, startText, running, endText, notesText) == Ok(db)
  {
    UpdateSessionUnchanged(db, db.sessions[id]);
  }

  /** Writing a session's own values back changes nothing. */
  lemma UpdateSessionUnchanged(db: Db, s: Session)
    requires s.id in db.sessions && db.sessions[s.id] == s
    ensures UpdateSession(db, s.id, s.date, s.start, s.end, s.notes) == db
  {
    assert db.sessions[s.id := s] == db.sessions;
  }

  /** Writing an entry's own values back changes nothing. */
  lemma UpdateProjectEntryUnchanged(db: Db, e: Entry)
    requires StoredEntry(db, e)
    ensures UpdateProjectEntry(db, e.id, e.project, e.category, e.start, e.end) == db
  {
    assert db.entries[e.id := e] == db.entries;
  }

  /** Saving an entry's own values back through the edit form leaves it as
      it was, when its stored times are whole minutes on the day it
      started: the form shows its name, category and times, and ticks
      "in progress" when it has no end. Times with seconds are cut to the
      minute (see EntryEditTruncates). */
  lemma EntryEditRoundTrip(db: Db, e: Entry, start: TimeOfDay, end: Option<TimeOfDay>)
    requires StoredEntry(db, e)
    requires start.Valid() && start.second == 0
    requires end.Some? ==> end.value.Valid() && end.value.second == 0
    requires e.start == Combine(DayOf(e.start), start)
    requires e.end == if end.Some? then Some(Combine(DayOf(e.start), end.value)) else None
    ensures SubmitEntryEdit(db, e, e.project, e.category, FormatTimeValue(Some(start)), end.None?, FormatTimeValue(end)) == Ok(db)
  {
    var day := DayOf(e.start);
    var startText, endText := FormatTimeValue(Some(start)), FormatTimeValue(end);
    TimeOnFormatted(day, start);
    assert TimeOn(day, startText) == Some(e.start);
    var endTime := if end.None? then None else TimeOn(day, endText);
    if end.Some? {
      TimeOnFormatted(day, end.value);
    }
    assert endTime == e.end;
    assert SubmitEntryEdit(db, e, e.project, e.category, startText, end.None?, endText)
        == Ok(UpdateProjectEntry(db, e.id, e.project, e.category, e.start, endTime));
    UpdateProjectEntryUnchanged(db, e);
  }

  /** The edit form shows times without their seconds, so saving a session
      as the form shows it stores its start and end cut to the minute; a
      start or end with seconds therefore changes the database. */
  lemma SessionEditTruncates(db: Db, id: nat, sd: Day, start: TimeOfDay, end: Option<TimeOfDay>, notes: Option<string>)
    requires start.Valid() && (end.Some? ==> end.value.Valid())
    requires notes.Some? ==> notes.value != []
    requires id in db.sessions
    requires db.sessions[id] == Session(id, sd, Combine(sd, start), if end.Some? then Some(Combine(sd, end.value)) else None, notes)
    ensures var r := SubmitSessionEdit(db, id, sd, FormatTimeValue(Some(start)), end.None?, FormatTimeValue(end),
                                       if notes.Some? then notes.value else []);
      && r.Ok?
      && r.value.sessions[id].start == Combine(sd, start.(second := 0))
      && r.value.sessions[id].end == (if end.Some? then Some(Combine(sd, end.value.(second := 0))) else None)
      && (r.value == db <==> start.second == 0 && (end.Some? ==> end.value.second == 0))
  {
    var notesText := if notes.Some? then notes.value else [];
    FormatDropsSeconds(start);
    TimeOnFormatted(sd, start.(second := 0));
    if end.Some? {
      FormatDropsSeconds(end.value);
      TimeOnFormatted(sd, end.value.(second := 0));
    }
    var r := SubmitSessionEdit(db, id, sd, FormatTimeValue(Some(start)), end.None?, FormatTimeValue(end), notesText);
    if start.second == 0 && (end.Some? ==> end.value.second == 0) {
      SessionEditRoundTrip(db, id, sd, start, end, notes);
    } else if start.second != 0 {
      assert r.value.sessions[id].start != db.sessions[id].start;
    } else {
      assert r.value.sessions[id].end != db.sessions[id].end;
    }
  }

  /** Likewise for an entry: saving it as the form shows it stores its
      start and end cut to the minute. */
  lemma EntryEditTruncates(db: Db, e: Entry, start: TimeOfDay, end: Option<TimeOfDay>)
    requires StoredEntry(db, e)
    requires start.Valid() && (end.Some? ==> end.value.Valid())
    requires e.start == Combine(DayOf(e.start), start)
    requires e.end == if end.Some? then Some(Combine(DayOf(e.start), end.value)) else None
    ensures var day := DayOf(e.start);
      var r := SubmitEntryEdit(db, e, e.project, e.category, FormatTimeValue(Some(start)), end.None?, FormatTimeValue(end));
      && r.Ok?
      && r.value.entries[e.id].start == Combine(day, start.(second := 0))
      && r.value.entries[e.id].end == (if end.Some? then Some(Combine(day, end.value.(second := 0))) else None)
      && (r.value == db <==> start.second == 0 && (end.Some? ==> end.value.second == 0))
  {
    var day := DayOf(e.start);
    FormatDropsSeconds(start);
    TimeOnFormatted(day, start.(second := 0));
    if end.Some? {
      FormatDropsSeconds(end.value);
      TimeOnFormatted(day, end.value.(second := 0));
    }
    var r := SubmitEntryEdit(db, e, e.project, e.category, FormatTimeValue(Some(start)), end.None?, FormatTimeValue(end));
    if start.second == 0 && (end.Some? ==> end.value.second == 0) {
      EntryEditRoundTrip(db, e, start, end);
    } else if start.second != 0 {
      assert r.value.entries[e.id].start != db.entries[e.id].start;
    } else {
      assert r.value.entries[e.id].end != db.entries[e.id].end;
    }
  }
}
