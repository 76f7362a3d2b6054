/** Properties that relate several store operations: seeding, the category
    rename cascade, the session lifecycle, and the find-or-create of
    `ensure_session_for_date`. */
module StoreFacts {
  import opened Wrappers
  import opened Clock
  import opened Store

  /** At most one session is running: the rule the Tracker page relies on,
      which the tables themselves do not enforce. */
  predicate AtMostOneOpenSession(db: Db) {
    forall i, j :: i in db.sessions && j in db.sessions && db.sessions[i].IsOpen() && db.sessions[j].IsOpen() ==> i == j
  }

  /** At most one entry is running in each session. */
  predicate AtMostOneOpenEntryPerSession(db: Db) {
    forall i, j ::
      (i in db.entries && j in db.entries && db.entries[i].end.None? && db.entries[j].end.None? &&
       db.entries[i].sessionId == db.entries[j].sessionId) ==> i == j
  }

  /** Seeding happens once: a second `init_db` changes nothing. */
  lemma InitDbIdempotent(db: Db)
    ensures InitDb(InitDb(db)) == InitDb(db)
  {
  }

  /** A fresh database lists exactly the three defaults as active categories. */
  lemma FreshCategories()
    ensures forall n :: n in GetCategories(InitDb(Empty), false) <==> n in DefaultCategories
  {
  }

  /** Adding a category twice is adding it once, and it is listed afterwards. */
  lemma AddCategoryIdempotent(db: Db, name: string)
    ensures AddCategory(AddCategory(db, name), name) == AddCategory(db, name)
    ensures name in GetCategories(AddCategory(db, name), true)
  {
  }

  /** After renaming A to B no entry is filed under A, and every entry that
      was filed under A is filed under B. */
  lemma RenameMovesEveryEntry(db: Db, a: string, b: string)
    requires RenameCategory(db, a, b).Ok?
    ensures var db' := RenameCategory(db, a, b).value;
      && (a != b ==> forall k :: k in db'.entries ==> db'.entries[k].category != a)
      && (forall k :: k in db.entries && db.entries[k].category == a ==> db'.entries[k].category == b)
  {
  }

  /** Renaming to a name used nowhere and back again restores the database. */
  lemma {:induction false} RenameRoundTrip(db: Db, a: string, b: string)
    requires a != b && b !in db.categories
    requires forall k :: k in db.entries ==> db.entries[k].category != b
    ensures RenameCategory(db, a, b).Ok?
    ensures RenameCategory(RenameCategory(db, a, b).value, b, a) == Ok(db)
  {
    var db1 := RenameCategory(db, a, b).value;
    assert a !in db1.categories;
    var db2 := RenameCategory(db1, b, a).value;
    assert db1.entries == RelabelEntries(db.entries, a, b);
    assert db2.entries == RelabelEntries(db1.entries, b, a);
    RelabelBack(db.entries, a, b);
    assert db2.categories == db.categories by {
      assert db2.categories.Keys == db.categories.Keys;
    }
    assert db2 == db;
  }

  /** Relabelling onto a label no entry carries, and back, changes no entry. */
  lemma RelabelBack(entries: map<nat, Entry>, a: string, b: string)
    requires forall k :: k in entries ==> entries[k].category != b
    ensures RelabelEntries(RelabelEntries(entries, a, b), b, a) == entries
  {
    var back := RelabelEntries(RelabelEntries(entries, a, b), b, a);
    forall k | k in entries
      ensures back[k] == entries[k]
    {
    }
    assert back.Keys == entries.Keys;
  }

  /** Starting a session while none runs makes it the active session, and
      it is then the only running one. */
  lemma StartSessionActivates(db: Db, now: Timestamp)
    requires GetActiveSession(db).None?
    ensures var (db', s) := StartSession(db, now);
      GetActiveSession(db') == Some(s) && AtMostOneOpenSession(db')
  {
    var (db', s) := StartSession(db, now);
    assert db'.sessions[s.id].IsOpen();
    assert forall k :: k in db'.sessions && db'.sessions[k].IsOpen() ==> k == s.id;
  }

  /** Start-then-end leaves no active session. */
  lemma StartThenEndLeavesNoneActive(db: Db, now: Timestamp, later: Timestamp)
    requires GetActiveSession(db).None?
    ensures var (db1, s) := StartSession(db, now);
      GetActiveSession(EndSession(db1, s.id, later)).None?
  {
    var (db1, s) := StartSession(db, now);
    var db2 := EndSession(db1, s.id, later);
    forall k | k in db2.sessions
      ensures !db2.sessions[k].IsOpen()
    {
      if k != s.id {
        assert db2.sessions[k] == db.sessions[k];
      }
    }
  }

  /** Ending a session never adds a running one. */
  lemma EndSessionKeepsRule(db: Db, id: nat, t: Timestamp)
    requires AtMostOneOpenSession(db)
    ensures AtMostOneOpenSession(EndSession(db, id, t))
  {
  }

  /** Ending an entry never adds a running one. */
  lemma EndEntryKeepsRule(db: Db, id: nat, t: Timestamp)
    requires AtMostOneOpenEntryPerSession(db)
    ensures AtMostOneOpenEntryPerSession(EndProjectEntry(db, id, t))
  {
    var r := EndProjectEntry(db, id, t);
    forall i, j | i in r.entries && j in r.entries && r.entries[i].end.None? && r.entries[j].end.None?
                  && r.entries[i].sessionId == r.entries[j].sessionId
      ensures i == j
    {
      assert r.entries[i] == db.entries[i] && r.entries[j] == db.entries[j];
    }
  }

  /** When at most one session runs, the active session is that one. */
  lemma ActiveSessionIsTheRunningOne(db: Db, k: nat)
    requires AtMostOneOpenSession(db)
    requires k in db.sessions && db.sessions[k].IsOpen()
    ensures GetActiveSession(db) == Some(db.sessions[k])
  {
  }

  /** The second `ensure_session_for_date` for a day returns the same session
      and changes nothing. */
  lemma {:induction false} EnsureSessionIdempotent(db: Db, d: Day)
    ensures var (db1, s1) := EnsureSessionForDate(db, d);
      EnsureSessionForDate(db1, d) == (db1, s1)
  {
    var (db1, s1) := EnsureSessionForDate(db, d);
    if forall k :: k in db.sessions ==> db.sessions[k].date != d {
      // The new session is the only one of that day, so the second call finds it.
      assert s1.id in db1.sessions && db1.sessions[s1.id].date == d;
      var (db2, s2) := EnsureSessionForDate(db1, d);
      assert db2 == db1;
      assert s2.id in db1.sessions && db1.sessions[s2.id].date == d;
      assert s2.id == s1.id;
    } else {
      // The store was left as it was, so the second call repeats the first.
      assert db1 == db;
    }
  }

  /** After deleting a session, no listed entry belongs to it, and every
      other entry is still listed. */
  lemma DeleteSessionCascades(db: Db, id: nat)
    ensures var all := ListAllProjectEntries(DeleteSession(db, id));
      && (forall x :: x in all ==> x.entry.sessionId != id)
      && (forall k :: k in db.entries && db.entries[k].sessionId != id ==>
            DatedEntry(db.entries[k], db.sessions[db.entries[k].sessionId].date) in all)
  {
  }

  /** A deleted session's id is never handed out again: the next session
      takes the counter, which deleting leaves where it was. */
  lemma DeletedSessionIdNotReused(db: Db, id: nat, now: Timestamp)
    requires id in db.sessions
    ensures StartSession(DeleteSession(db, id), now).1.id == db.nextSessionId
    ensures StartSession(DeleteSession(db, id), now).1.id != id
  {
  }

  /** A deleted entry's id is never handed out again. */
  lemma DeletedEntryIdNotReused(db: Db, id: nat, sessionId: nat, project: string, category: string, now: Timestamp)
    requires id in db.entries && sessionId in db.sessions
    ensures var r := StartProjectEntry(DeleteProjectEntry(db, id), sessionId, project, category, now);
      r.Ok? && r.value.1.id == db.nextEntryId && r.value.1.id != id
  {
  }

  /** Deleting the session just started restores every table; only the
      session counter has moved on. */
  lemma StartThenDeleteSession(db: Db, now: Timestamp)
    ensures var (db', s) := StartSession(db, now);
      DeleteSession(db', s.id) == db.(nextSessionId := db.nextSessionId + 1)
  {
    var (db', s) := StartSession(db, now);
    var r := DeleteSession(db', s.id);
    assert r.sessions == db.sessions;
    assert r.entries == db.entries by {
      forall k | k in db.entries
        ensures db.entries[k].sessionId != s.id
      {
        assert db.entries[k].sessionId in db.sessions;
      }
    }
  }

  /** Deleting the entry just started restores every table; only the entry
      counter has moved on. */
  lemma StartThenDeleteEntry(db: Db, sessionId: nat, project: string, category: string, now: Timestamp)
    requires sessionId in db.sessions
    ensures var r := StartProjectEntry(db, sessionId, project, category, now);
      r.Ok? && DeleteProjectEntry(r.value.0, r.value.1.id) == db.(nextEntryId := db.nextEntryId + 1)
  {
    var r := StartProjectEntry(db, sessionId, project, category, now);
    var (db', e) := r.value;
    RemoveInserted(db.entries, e.id, e);
  }

  lemma RemoveInserted<V>(m: map<nat, V>, k: nat, v: V)
    requires k !in m
    ensures m[k := v] - {k} == m
  {
  }
}
