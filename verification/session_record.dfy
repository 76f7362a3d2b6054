/** How db.py turns a fetched row into its record types, `Record(**row)`:
    each column of `SELECT *` becomes a keyword argument, and the record's
    constructor accepts exactly its declared fields. The `work_sessions`
    table has a `notes` column that the `WorkSession` record does not
    declare, so as written every function that builds a `WorkSession`
    from a row fails. */
module SessionRecord {
  import opened Wrappers
  import opened Clock
  import opened Store
  import opened StoreFacts

  /** The columns of a `work_sessions` row, in table order. */
  const SessionColumns: seq<string> := ["id", "session_date", "start_time", "end_time", "notes"]

  /** The columns of a `project_entries` row, in table order. */
  const EntryColumns: seq<string> := ["id", "session_id", "project_name", "category", "start_time", "end_time"]

  /** The fields `WorkSession` declares as written: no `notes`. */
  const WorkSessionFieldsAsWritten: set<string> := {"id", "session_date", "start_time", "end_time"}

  /** The fields `WorkSession` needs to accept its table's rows. */
  const WorkSessionFields: set<string> := {"id", "session_date", "start_time", "end_time", "notes"}

  /** The fields `ProjectEntry` declares. */
  const ProjectEntryFields: set<string> := {"id", "session_id", "project_name", "category", "start_time", "end_time"}

  /** The `TypeError`s a keyword-argument constructor raises. */
  datatype RecordError = UnexpectedKeyword(name: string) | MissingArgument

  /** The first column the record does not declare, if any. */
  function FirstUnknown(fields: set<string>, columns: seq<string>): (r: Option<string>)
    ensures r.None? <==> forall c :: c in columns ==> c in fields
    ensures r.Some? ==> r.value in columns && r.value !in fields
    ensures r.Some? ==> exists i :: 0 <= i < |columns| && columns[i] == r.value && forall j :: 0 <= j < i ==> columns[j] in fields
  {
    if columns == [] then None
    else if columns[0] !in fields then Some(columns[0])
    else
      var r := FirstUnknown(fields, columns[1..]);
      assert r.Some? ==> exists i :: 0 < i < |columns| && columns[i] == r.value && forall j :: 0 <= j < i ==> columns[j] in fields by {
        if r.Some? {
          var i :| 0 <= i < |columns[1..]| && columns[1..][i] == r.value && forall j :: 0 <= j < i ==> columns[1..][j] in fields;
          assert columns[i + 1] == r.value;
          forall j | 0 <= j < i + 1
            ensures columns[j] in fields
          {
            if j > 0 {
              assert columns[j] == columns[1..][j - 1];
            }
          }
        }
      }
      r
  }

  /** `Record(**row)`: the first undeclared column is refused, then a
      declared field without a column is refused. */
  function FromRow(fields: set<string>, columns: seq<string>): (r: Result<(), RecordError>)
    ensures r.Ok? <==> (forall c :: c in columns ==> c in fields) && (forall f :: f in fields ==> f in columns)
    ensures r.Err? && r.error.UnexpectedKeyword? ==> r.error.name in columns && r.error.name !in fields
  {
    match FirstUnknown(fields, columns)
    case Some(c) => Err(UnexpectedKeyword(c))
    case None => if forall f :: f in fields ==> f in columns then Ok(()) else Err(MissingArgument)
  }

  /** A session read back through the record as written. */
  function DecodeAsWritten(s: Session): (r: Result<Session, RecordError>)
    ensures r == Err(UnexpectedKeyword("notes"))
  {
    assert FirstUnknown(WorkSessionFieldsAsWritten, SessionColumns) == Some("notes") by {
      UnknownSessionColumn();
    }
    match FromRow(WorkSessionFieldsAsWritten, SessionColumns)
    case Ok(_) => Ok(s)
    case Err(e) => Err(e)
  }

  /** Of a session row's columns, only `notes` is undeclared. */
  lemma UnknownSessionColumn()
    ensures FirstUnknown(WorkSessionFieldsAsWritten, SessionColumns) == Some("notes")
  {
    var cs := SessionColumns;
    assert cs[1..][1..][1..][1..] == ["notes"];
  }

  /** `get_active_session` as written: fails whenever a session is running. */
  function GetActiveSessionAsWritten(db: Db): (r: Result<Option<Session>, RecordError>)
    ensures r.Err? <==> exists k :: k in db.sessions && db.sessions[k].IsOpen()
    ensures r.Ok? ==> r.value.None?
  {
    match GetActiveSession(db)
    case None => Ok(None)
    case Some(s) =>
      match DecodeAsWritten(s)
      case Ok(s') => Ok(Some(s'))
      case Err(e) => Err(e)
  }

  /** `start_session` as written: the row is committed, then building the
      record fails. */
  function StartSessionAsWritten(db: Db, now: Timestamp): (r: (Db, Result<Session, RecordError>))
    ensures r.1.Err?
    ensures var (db', s) := StartSession(db, now); r.0 == db' && GetActiveSession(db').Some?
  {
    var (db', s) := StartSession(db, now);
    assert db'.sessions[s.id].IsOpen();
    (db', DecodeAsWritten(s))
  }

  /** `ensure_session_for_date` as written: fails whether it finds the
      day's session or creates it, and in the second case the new row
      stays. */
  function EnsureSessionForDateAsWritten(db: Db, d: Day): (r: (Db, Result<Session, RecordError>))
    ensures r.1.Err?
    ensures r.0 == EnsureSessionForDate(db, d).0
  {
    var (db', s) := EnsureSessionForDate(db, d);
    (db', DecodeAsWritten(s))
  }

  /** As written, the Tracker page cannot be loaded once Start Day was
      pressed: reading the running session fails from then on. */
  lemma StartDayBreaksTracker(db: Db, now: Timestamp)
    ensures GetActiveSessionAsWritten(StartSessionAsWritten(db, now).0).Err?
  {
    var (db', s) := StartSession(db, now);
    assert db'.sessions[s.id].IsOpen();
  }

  /** The smallest case: a fresh database and one Start Day. */
  lemma FirstStartDayBreaksTracker()
    ensures StartSessionAsWritten(InitDb(Empty), 0).1 == Err(UnexpectedKeyword("notes"))
    ensures GetActiveSessionAsWritten(StartSessionAsWritten(InitDb(Empty), 0).0) == Err(UnexpectedKeyword("notes"))
  {
    StartDayBreaksTracker(InitDb(Empty), 0);
  }

  /** With `notes` declared, a session row builds a record, as every entry
      row already does. */
  lemma DeclaringNotesFixesDecoding()
    ensures FromRow(WorkSessionFields, SessionColumns) == Ok(())
    ensures FromRow(ProjectEntryFields, EntryColumns) == Ok(())
  {
    assert forall f :: f in WorkSessionFields ==> f in SessionColumns by {
      assert SessionColumns[0] == "id" && SessionColumns[1] == "session_date" && SessionColumns[2] == "start_time";
      assert SessionColumns[3] == "end_time" && SessionColumns[4] == "notes";
    }
    assert forall f :: f in ProjectEntryFields ==> f in EntryColumns by {
      assert EntryColumns[0] == "id" && EntryColumns[1] == "session_id" && EntryColumns[2] == "project_name";
      assert EntryColumns[3] == "category" && EntryColumns[4] == "start_time" && EntryColumns[5] == "end_time";
    }
  }
}
