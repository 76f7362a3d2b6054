/** The three SQLite tables of db.py as one immutable value, and every
    statement db.py issues as a pure transition or query over it. */
module Store {
  import opened Wrappers
  import opened Text
  import opened Clock
  import opened Seqs

  /** A `work_sessions` row. */
  datatype Session = Session(id: nat, date: Day, start: Timestamp, end: Option<Timestamp>, notes: Option<string>) {
    /** Still running: `end_time IS NULL`. */
    predicate IsOpen() {
      end.None?
    }
  }

  /** A `project_entries` row. */
  datatype Entry = Entry(id: nat, sessionId: nat, project: string, category: string, start: Timestamp, end: Option<Timestamp>)

  /** The constraint failures SQLite raises (as `sqlite3.IntegrityError`);
      the failing statement and everything after it in the call is undone. */
  datatype StoreError = UniqueViolation | ForeignKeyViolation

  /** The database: rows keyed by their AUTOINCREMENT ids, the next id each
      table hands out, and the categories keyed by their UNIQUE name with
      the `active` flag as value. */
  datatype Tables = Tables(
    sessions: map<nat, Session>,
    entries: map<nat, Entry>,
    categories: map<string, bool>,
    nextSessionId: nat,
    nextEntryId: nat)
  {
    /** Ids are positive (the first one handed out is 1), stored in their row, below the next id to be
        handed out; and every entry's `session_id` names a session (the
        foreign key, enforced because every connection turns
        `foreign_keys` on). */
    predicate Valid() {
      && nextSessionId > 0 && nextEntryId > 0
      && (forall k :: k in sessions ==> 0 < k < nextSessionId && sessions[k].id == k)
      && (forall k :: k in entries ==> 0 < k < nextEntryId && entries[k].id == k && entries[k].sessionId in sessions)
    }
  }

  type Db = t: Tables | t.Valid() witness Tables(map[], map[], map[], 1, 1)

  /** Both AUTOINCREMENT counters as they were: no id was handed out. */
  predicate SameCounters(a: Tables, b: Tables) {
    a.nextSessionId == b.nextSessionId && a.nextEntryId == b.nextEntryId
  }

  /** The tables as `CREATE TABLE` leaves them: empty, ids starting at 1. */
  const Empty: Db := Tables(map[], map[], map[], 1, 1)

  const DefaultCategories: set<string> := {"Programming", "Meetings", "Marketing"}

  // ---------------------------------------------------------------- scans

  /** The keys of a table below a bound, ascending. */
  function KeysBelow<T>(m: map<nat, T>, hi: nat): (r: seq<nat>)
    ensures forall i, j :: 0 <= i < j < |r| ==> r[i] < r[j]
    ensures forall i :: 0 <= i < |r| ==> r[i] < hi
    ensures forall k :: k in r <==> k in m && k < hi
  {
    if hi == 0 then []
    else
      var below := KeysBelow(m, hi - 1);
      below + (if hi - 1 in m then [hi - 1] else [])
  }

  /** Every row of a table whose rows carry their own key, in rowid order
      (a full-table `SELECT *`). */
  function RowsById<T(==,!new)>(m: map<nat, T>, hi: nat, id: T -> nat): (r: seq<T>)
    requires forall k :: k in m ==> k < hi && id(m[k]) == k
    ensures forall x :: x in r <==> id(x) in m && m[id(x)] == x
    ensures forall i, j :: 0 <= i < j < |r| ==> id(r[i]) < id(r[j])
    ensures Distinct(r)
  {
    var ids := KeysBelow(m, hi);
    var r := seq(|ids|, i requires 0 <= i < |ids| => m[ids[i]]);
    assert forall i :: 0 <= i < |r| ==> id(r[i]) == ids[i];
    assert forall x :: id(x) in m && m[id(x)] == x ==> x in r by {
      forall x | id(x) in m && m[id(x)] == x
        ensures x in r
      {
        assert id(x) in ids;
        var i :| 0 <= i < |ids| && ids[i] == id(x);
        assert r[i] == x;
      }
    }
    assert forall x :: x in r ==> id(x) in m && m[id(x)] == x by {
      forall x | x in r
        ensures id(x) in m && m[id(x)] == x
      {
        var i :| 0 <= i < |r| && r[i] == x;
        assert ids[i] in ids;
      }
    }
    r
  }

  /** Every `work_sessions` row, in rowid order. */
  function AllSessions(db: Db): (r: seq<Session>)
    ensures forall s :: s in r <==> s.id in db.sessions && db.sessions[s.id] == s
    ensures forall i, j :: 0 <= i < j < |r| ==> r[i].id < r[j].id
    ensures Distinct(r)
  {
    RowsById(db.sessions, db.nextSessionId, (s: Session) => s.id)
  }

  /** Every `project_entries` row, in rowid order. */
  function AllEntries(db: Db): (r: seq<Entry>)
    ensures forall e :: e in r <==> e.id in db.entries && db.entries[e.id] == e
    ensures forall i, j :: 0 <= i < j < |r| ==> r[i].id < r[j].id
    ensures Distinct(r)
  {
    RowsById(db.entries, db.nextEntryId, (e: Entry) => e.id)
  }

  /** A row as stored. */
  predicate StoredSession(db: Db, s: Session) {
    s.id in db.sessions && db.sessions[s.id] == s
  }

  predicate StoredEntry(db: Db, e: Entry) {
    e.id in db.entries && db.entries[e.id] == e
  }

  // ----------------------------------------------------------- categories

  /** `init_db`: the schema exists; the three default categories are
      inserted, active, only into an empty categories table. */
  function InitDb(db: Db): (r: Db)
    ensures db.categories == map[] ==> r.categories.Keys == DefaultCategories
    ensures db.categories == map[] ==> forall n :: n in r.categories ==> r.categories[n]
    ensures db.categories != map[] ==> r == db
    ensures r.sessions == db.sessions && r.entries == db.entries && SameCounters(r, db)
  {
    if db.categories == map[] then
      db.(categories := map["Programming" := true, "Meetings" := true, "Marketing" := true])
    else db
  }

  /** `get_categories`: names in ascending order, inactive ones only on request. */
  function GetCategories(db: Db, includeInactive: bool): (names: seq<string>)
    ensures forall i, j :: 0 <= i < j < |names| ==> LexLess(names[i], names[j])
    ensures forall n :: n in names <==> n in db.categories && (includeInactive || db.categories[n])
  {
    SortedNames(set n | n in db.categories && (includeInactive || db.categories[n]))
  }

  /** `add_category`: `INSERT OR IGNORE`, so a known name changes nothing. */
  function AddCategory(db: Db, name: string): (r: Db)
    ensures name in db.categories ==> r == db
    ensures name !in db.categories ==> r.categories.Keys == db.categories.Keys + {name} && r.categories[name]
    ensures forall n :: n in db.categories ==> n in r.categories && r.categories[n] == db.categories[n]
    ensures r.sessions == db.sessions && r.entries == db.entries && SameCounters(r, db)
  {
    if name in db.categories then db else db.(categories := db.categories[name := true])
  }

  /** `set_category_active`: an unknown name matches no row. */
  function SetCategoryActive(db: Db, name: string, active: bool): (r: Db)
    ensures r.categories.Keys == db.categories.Keys
    ensures name in db.categories ==> r.categories[name] == active
    ensures forall n :: n in db.categories && n != name ==> r.categories[n] == db.categories[n]
    ensures r.sessions == db.sessions && r.entries == db.entries && SameCounters(r, db)
  {
    if name in db.categories then db.(categories := db.categories[name := active]) else db
  }

  /** The category column rewritten from one name to another on every entry. */
  function RelabelEntries(entries: map<nat, Entry>, oldName: string, newName: string): (r: map<nat, Entry>)
    ensures r.Keys == entries.Keys
    ensures forall k :: k in entries ==>
      r[k] == entries[k].(category := if entries[k].category == oldName then newName else entries[k].category)
  {
    map k | k in entries :: if entries[k].category == oldName then entries[k].(category := newName) else entries[k]
  }

  /** `rename_category`: renames the category row, then every entry filed
      under the old name, whether or not the old name is a row. Renaming
      onto another existing row breaks the UNIQUE constraint before
      anything is written. */
  function RenameCategory(db: Db, oldName: string, newName: string): (r: Result<Db, StoreError>)
    ensures r.Err? <==> oldName in db.categories && newName in db.categories && oldName != newName
    ensures r.Err? ==> r.error == UniqueViolation
    ensures r.Ok? ==> r.value.sessions == db.sessions && r.value.entries.Keys == db.entries.Keys
    ensures r.Ok? ==> SameCounters(r.value, db)
    ensures r.Ok? ==> forall k :: k in db.entries ==>
      && r.value.entries[k].category == (if db.entries[k].category == oldName then newName else db.entries[k].category)
      && r.value.entries[k].(category := "") == db.entries[k].(category := "")
    ensures r.Ok? ==> forall n :: n in r.value.categories <==>
      (n in db.categories && n != oldName) || (n == newName && (oldName in db.categories || newName in db.categories))
    ensures r.Ok? && oldName in db.categories ==> r.value.categories[newName] == db.categories[oldName]
    ensures r.Ok? ==> forall n :: n in db.categories && n != oldName && n != newName ==> r.value.categories[n] == db.categories[n]
  {
    if oldName in db.categories && newName in db.categories && oldName != newName then Err(UniqueViolation)
    else
      var cats := if oldName in db.categories then (db.categories - {oldName})[newName := db.categories[oldName]] else db.categories;
      Ok(db.(categories := cats, entries := RelabelEntries(db.entries, oldName, newName)))
  }

  // ------------------------------------------------------------- sessions

  /** Inserting a session row under the next AUTOINCREMENT id. */
  function InsertSession(db: Db, date: Day, start: Timestamp): (r: (Db, Session))
    ensures r.1 == Session(db.nextSessionId, date, start, None, None)
    ensures r.1.id !in db.sessions && forall k :: k in db.sessions ==> k < r.1.id
    ensures r.0.sessions == db.sessions[r.1.id := r.1]
    ensures r.0.entries == db.entries && r.0.categories == db.categories
    ensures r.0.nextSessionId == db.nextSessionId + 1 && r.0.nextEntryId == db.nextEntryId
  {
    var s := Session(db.nextSessionId, date, start, None, None);
    var t := db.(sessions := db.sessions[s.id := s], nextSessionId := db.nextSessionId + 1);
    assert t.Valid();
    (t, s)
  }

  /** `start_session(now)`: a new running session dated the day of `now`. */
  function StartSession(db: Db, now: Timestamp): (r: (Db, Session))
    ensures r.1.id !in db.sessions && forall k :: k in db.sessions ==> k < r.1.id
    ensures r.1.id == db.nextSessionId && r.0.nextSessionId == db.nextSessionId + 1 && r.0.nextEntryId == db.nextEntryId
    ensures r.1.date == DayOf(now) && r.1.start == now && r.1.IsOpen() && r.1.notes.None?
    ensures r.0.sessions.Keys == db.sessions.Keys + {r.1.id} && r.0.sessions[r.1.id] == r.1
    ensures forall k :: k in db.sessions ==> r.0.sessions[k] == db.sessions[k]
    ensures r.0.entries == db.entries && r.0.categories == db.categories
  {
    InsertSession(db, DayOf(now), now)
  }

  /** `end_session(id, t)`: sets that session's end, whatever it was; an
      unknown id matches no row. */
  function EndSession(db: Db, id: nat, t: Timestamp): (r: Db)
    ensures r.sessions.Keys == db.sessions.Keys
    ensures id in db.sessions ==> r.sessions[id] == db.sessions[id].(end := Some(t))
    ensures forall k :: k in db.sessions && k != id ==> r.sessions[k] == db.sessions[k]
    ensures r.entries == db.entries && r.categories == db.categories && SameCounters(r, db)
    ensures id !in db.sessions ==> r == db
  {
    if id in db.sessions then db.(sessions := db.sessions[id := db.sessions[id].(end := Some(t))]) else db
  }

  /** `get_active_session`: a running session with the latest start, if any
      session is running. */
  function GetActiveSession(db: Db): (r: Option<Session>)
    ensures r.None? <==> forall k :: k in db.sessions ==> !db.sessions[k].IsOpen()
    ensures r.Some? ==> StoredSession(db, r.value) && r.value.IsOpen()
    ensures r.Some? ==> forall k :: k in db.sessions && db.sessions[k].IsOpen() ==> db.sessions[k].start <= r.value.start
  {
    var open := Filter(AllSessions(db), (s: Session) => s.IsOpen());
    assert forall k :: k in db.sessions && db.sessions[k].IsOpen() ==> db.sessions[k] in open by {
      forall k | k in db.sessions && db.sessions[k].IsOpen()
        ensures db.sessions[k] in open
      {
        assert db.sessions[k].id == k;
      }
    }
    assert open != [] ==> open[0] in open;
    MaxBy(open, (s: Session) => s.start)
  }

  /** `update_session`: overwrites every column of an existing row. */
  function UpdateSession(db: Db, id: nat, date: Day, start: Timestamp, end: Option<Timestamp>, notes: Option<string>): (r: Db)
    ensures r.sessions.Keys == db.sessions.Keys
    ensures id in db.sessions ==> r.sessions[id] == Session(id, date, start, end, notes)
    ensures forall k :: k in db.sessions && k != id ==> r.sessions[k] == db.sessions[k]
    ensures r.entries == db.entries && r.categories == db.categories && SameCounters(r, db)
    ensures id !in db.sessions ==> r == db
  {
    if id in db.sessions then db.(sessions := db.sessions[id := Session(id, date, start, end, notes)]) else db
  }

  /** `delete_session`: removes the session and, by `ON DELETE CASCADE`,
      every entry that belongs to it. */
  function DeleteSession(db: Db, id: nat): (r: Db)
    ensures r.sessions == db.sessions - {id}
    ensures forall k :: k in r.entries <==> k in db.entries && db.entries[k].sessionId != id
    ensures forall k :: k in r.entries ==> r.entries[k] == db.entries[k]
    ensures r.categories == db.categories && SameCounters(r, db)
  {
    db.(sessions := db.sessions - {id},
        entries := map k | k in db.entries && db.entries[k].sessionId != id :: db.entries[k])
  }

  /** `ensure_session_for_date`: the earliest-starting session of that day,
      or else a new running session starting at its midnight. */
  function EnsureSessionForDate(db: Db, d: Day): (r: (Db, Session))
    ensures StoredSession(r.0, r.1) && r.1.date == d
    ensures (exists k :: k in db.sessions && db.sessions[k].date == d) ==>
      && r.0 == db
      && forall k :: k in db.sessions && db.sessions[k].date == d ==> r.1.start <= db.sessions[k].start
    ensures (forall k :: k in db.sessions ==> db.sessions[k].date != d) ==>
      && r.1.start == Midnight(d) && r.1.IsOpen() && r.1.notes.None?
      && r.1.id !in db.sessions && r.0.sessions == db.sessions[r.1.id := r.1]
      && r.0.entries == db.entries && r.0.categories == db.categories
      && r.0.nextSessionId == db.nextSessionId + 1 && r.0.nextEntryId == db.nextEntryId
  {
    var sameDay := Filter(AllSessions(db), (s: Session) => s.date == d);
    assert forall k :: k in db.sessions && db.sessions[k].date == d ==> db.sessions[k] in sameDay;
    match MinBy(sameDay, (s: Session) => s.start)
    case Some(s) => (db, s)
    case None => InsertSession(db, d, Midnight(d))
  }

  /** `list_sessions_between`: the sessions dated within the inclusive
      range, each once, by date. */
  function ListSessionsBetween(db: Db, from: Day, to: Day): (r: seq<Session>)
    ensures forall s :: s in r <==> StoredSession(db, s) && from <= s.date <= to
    ensures forall i, j :: 0 <= i < j < |r| ==> r[i].date <= r[j].date
    ensures Distinct(r)
  {
    var inRange := Filter(AllSessions(db), (s: Session) => from <= s.date <= to);
    SortBy(inRange, (s: Session) => (s.date, 0))
  }

  /** `list_all_sessions`: every session once, latest date first and,
      within a date, latest start first. */
  function ListAllSessions(db: Db): (r: seq<Session>)
    ensures forall s :: s in r <==> StoredSession(db, s)
    ensures forall i, j :: 0 <= i < j < |r| ==>
      r[i].date > r[j].date || (r[i].date == r[j].date && r[i].start >= r[j].start)
    ensures Distinct(r)
  {
    SortBy(AllSessions(db), (s: Session) => (-s.date, -s.start))
  }

  // -------------------------------------------------------------- entries

  /** An entry inserted under the next entry id, which is fresh; the entry
      counter moves past it and nothing else is touched. */
  ghost predicate AddsEntry(db: Db, db': Db, e: Entry) {
    && e.id !in db.entries && (forall k :: k in db.entries ==> k < e.id)
    && e.id == db.nextEntryId && db'.nextEntryId == db.nextEntryId + 1 && db'.nextSessionId == db.nextSessionId
    && db'.entries == db.entries[e.id := e]
    && db'.sessions == db.sessions && db'.categories == db.categories
  }

  /** Inserting an entry row under the next AUTOINCREMENT id; the foreign
      key refuses a session id that names no session. */
  function InsertEntry(db: Db, sessionId: nat, project: string, category: string, start: Timestamp, end: Option<Timestamp>): (r: Result<(Db, Entry), StoreError>)
    ensures r.Err? <==> sessionId !in db.sessions
    ensures r.Err? ==> r.error == ForeignKeyViolation
    ensures r.Ok? ==> AddsEntry(db, r.value.0, r.value.1)
    ensures r.Ok? ==> r.value.1 == Entry(r.value.1.id, sessionId, project, category, start, end)
  {
    if sessionId !in db.sessions then Err(ForeignKeyViolation)
    else
      var e := Entry(db.nextEntryId, sessionId, project, category, start, end);
      var t := db.(entries := db.entries[e.id := e], nextEntryId := db.nextEntryId + 1);
      assert t.Valid();
      Ok((t, e))
  }

  /** `start_project_entry`: a running entry from `now`, the project name
      stripped of surrounding whitespace. */
  function StartProjectEntry(db: Db, sessionId: nat, project: string, category: string, now: Timestamp): (r: Result<(Db, Entry), StoreError>)
    ensures r.Err? <==> sessionId !in db.sessions
    ensures r.Ok? ==> AddsEntry(db, r.value.0, r.value.1)
    ensures r.Ok? ==> var e := r.value.1;
      e.sessionId == sessionId && e.project == Strip(project) && e.category == category && e.start == now && e.end.None?
  {
    InsertEntry(db, sessionId, Strip(project), category, now, None)
  }

  /** `add_manual_project_entry`: an entry with the caller's start and end,
      the name stored as given. */
  function AddManualProjectEntry(db: Db, sessionId: nat, project: string, category: string, start: Timestamp, end: Option<Timestamp>): (r: Result<(Db, Entry), StoreError>)
    ensures r.Err? <==> sessionId !in db.sessions
    ensures r.Ok? ==> AddsEntry(db, r.value.0, r.value.1)
    ensures r.Ok? ==> var e := r.value.1;
      e.sessionId == sessionId && e.project == project && e.category == category && e.start == start && e.end == end
  {
    InsertEntry(db, sessionId, project, category, start, end)
  }

  /** `end_project_entry(id, t)`: sets that entry's end; an unknown id
      matches no row. */
  function EndProjectEntry(db: Db, id: nat, t: Timestamp): (r: Db)
    ensures r.entries.Keys == db.entries.Keys
    ensures id in db.entries ==> r.entries[id] == db.entries[id].(end := Some(t))
    ensures forall k :: k in db.entries && k != id ==> r.entries[k] == db.entries[k]
    ensures r.sessions == db.sessions && r.categories == db.categories && SameCounters(r, db)
    ensures id !in db.entries ==> r == db
  {
    if id in db.entries then db.(entries := db.entries[id := db.entries[id].(end := Some(t))]) else db
  }

  /** Running, and inside the given session when one is given. */
  predicate OpenIn(e: Entry, sessionId: Option<nat>) {
    e.end.None? && (sessionId.None? || e.sessionId == sessionId.value)
  }

  /** `get_active_project_entry`: a running entry (of the given session, if
      any) with the latest start. */
  function GetActiveProjectEntry(db: Db, sessionId: Option<nat>): (r: Option<Entry>)
    ensures r.None? <==> forall k :: k in db.entries ==> !OpenIn(db.entries[k], sessionId)
    ensures r.Some? ==> StoredEntry(db, r.value) && OpenIn(r.value, sessionId)
    ensures r.Some? ==> forall k :: k in db.entries && OpenIn(db.entries[k], sessionId) ==> db.entries[k].start <= r.value.start
  {
    var open := Filter(AllEntries(db), (e: Entry) => OpenIn(e, sessionId));
    assert forall k :: k in db.entries && OpenIn(db.entries[k], sessionId) ==> db.entries[k] in open by {
      forall k | k in db.entries && OpenIn(db.entries[k], sessionId)
        ensures db.entries[k] in open
      {
        assert db.entries[k].id == k;
      }
    }
    assert open != [] ==> open[0] in open;
    MaxBy(open, (e: Entry) => e.start)
  }

  /** `update_project_entry`: overwrites name, category, start and end; the
      owning session stays. */
  function UpdateProjectEntry(db: Db, id: nat, project: string, category: string, start: Timestamp, end: Option<Timestamp>): (r: Db)
    ensures r.entries.Keys == db.entries.Keys
    ensures id in db.entries ==> r.entries[id] == Entry(id, db.entries[id].sessionId, project, category, start, end)
    ensures forall k :: k in db.entries && k != id ==> r.entries[k] == db.entries[k]
    ensures r.sessions == db.sessions && r.categories == db.categories && SameCounters(r, db)
    ensures id !in db.entries ==> r == db
  {
    if id in db.entries then
      db.(entries := db.entries[id := Entry(id, db.entries[id].sessionId, project, category, start, end)])
    else db
  }

  /** `delete_project_entry`. */
  function DeleteProjectEntry(db: Db, id: nat): (r: Db)
    ensures r.entries == db.entries - {id}
    ensures r.sessions == db.sessions && r.categories == db.categories && SameCounters(r, db)
  {
    db.(entries := db.entries - {id})
  }

  /** An entry joined with its session's date (`SELECT pe.*, ws.session_date`). */
  datatype DatedEntry = DatedEntry(entry: Entry, sessionDate: Day)

  predicate JoinedRow(db: Db, d: DatedEntry) {
    StoredEntry(db, d.entry) && d.sessionDate == db.sessions[d.entry.sessionId].date
  }

  function JoinAll(db: Db): (r: seq<DatedEntry>)
    ensures forall d :: d in r <==> JoinedRow(db, d)
    ensures Distinct(r)
  {
    JoinDates(AllEntries(db), db.sessions)
  }

  /** Each entry paired with its session's date (the `JOIN ... ON s.id =
      pe.session_id`). */
  function JoinDates(es: seq<Entry>, sessions: map<nat, Session>): (r: seq<DatedEntry>)
    requires forall e :: e in es ==> e.sessionId in sessions
    ensures forall d :: d in r <==> d.entry in es && d.sessionDate == sessions[d.entry.sessionId].date
    ensures Distinct(es) ==> Distinct(r)
  {
    var r := seq(|es|, i requires 0 <= i < |es| => DatedEntry(es[i], sessions[es[i].sessionId].date));
    assert forall d: DatedEntry :: d.entry in es && d.sessionDate == sessions[d.entry.sessionId].date ==> d in r by {
      forall d: DatedEntry | d.entry in es && d.sessionDate == sessions[d.entry.sessionId].date
        ensures d in r
      {
        var i :| 0 <= i < |es| && es[i] == d.entry;
        assert r[i] == d;
      }
    }
    assert forall d :: d in r ==> d.entry in es by {
      forall d | d in r
        ensures d.entry in es
      {
        var i :| 0 <= i < |r| && r[i] == d;
        assert es[i] in es;
      }
    }
    assert Distinct(es) ==> Distinct(r) by {
      if Distinct(es) {
        forall i, j | 0 <= i < j < |r|
          ensures r[i] != r[j]
        {
          assert r[i].entry == es[i] && r[j].entry == es[j];
        }
      }
    }
    r
  }

  /** `list_project_entries_between`: the entries whose session is dated
      within the inclusive range, each once with that date, by start. */
  function ListProjectEntriesBetween(db: Db, from: Day, to: Day): (r: seq<DatedEntry>)
    ensures forall d :: d in r <==> JoinedRow(db, d) && from <= d.sessionDate <= to
    ensures forall i, j :: 0 <= i < j < |r| ==> r[i].entry.start <= r[j].entry.start
    ensures Distinct(r)
  {
    var inRange := Filter(JoinAll(db), (d: DatedEntry) => from <= d.sessionDate <= to);
    SortBy(inRange, (d: DatedEntry) => (d.entry.start, 0))
  }

  /** `list_all_project_entries`: every entry once with its session's date,
      latest start first. */
  function ListAllProjectEntries(db: Db): (r: seq<DatedEntry>)
    ensures forall d :: d in r <==> JoinedRow(db, d)
    ensures forall i, j :: 0 <= i < j < |r| ==> r[i].entry.start >= r[j].entry.start
    ensures Distinct(r)
  {
    SortBy(JoinAll(db), (d: DatedEntry) => (-d.entry.start, 0))
  }
}
