/** The report arithmetic of services.py: hours per day over the sessions of
    a date range, and hours and share per category over its entries, both
    as `groupby(...).sum()` does them (one row per key, keys ascending). */
module Reports {
  import opened Wrappers
  import opened Text
  import opened Clock
  import opened Store
  import opened Seqs

  // ------------------------------------------------------------ grouping

  /** A strict total order on group keys. */
  ghost predicate StrictOrder<K(!new)>(less: (K, K) -> bool) {
    && (forall a :: !less(a, a))
    && (forall a, b, c :: less(a, b) && less(b, c) ==> less(a, c))
    && (forall a, b :: a == b || less(a, b) || less(b, a))
  }

  /** The keys present among keyed values. */
  function KeySet<K>(xs: seq<(K, int)>): set<K> {
    set i | 0 <= i < |xs| :: xs[i].0
  }

  /** The sum of the values filed under one key. */
  function SumFor<K(==)>(xs: seq<(K, int)>, k: K): int {
    if xs == [] then 0 else (if xs[0].0 == k then xs[0].1 else 0) + SumFor(xs[1..], k)
  }

  /** The sum of all values. */
  function Total<K>(xs: seq<(K, int)>): int {
    if xs == [] then 0 else xs[0].1 + Total(xs[1..])
  }

  predicate Increasing<K>(groups: seq<(K, int)>, less: (K, K) -> bool) {
    forall i, j :: 0 <= i < j < |groups| ==> less(groups[i].0, groups[j].0)
  }

  lemma KeySetTail<K>(xs: seq<(K, int)>)
    requires xs != []
    ensures KeySet(xs) == {xs[0].0} + KeySet(xs[1..])
  {
    forall k | k in KeySet(xs)
      ensures k == xs[0].0 || k in KeySet(xs[1..])
    {
      var i :| 0 <= i < |xs| && xs[i].0 == k;
      if i > 0 {
        assert xs[1..][i - 1].0 == k;
      }
    }
    forall k | k in KeySet(xs[1..])
      ensures k in KeySet(xs)
    {
      var i :| 0 <= i < |xs[1..]| && xs[1..][i].0 == k;
      assert xs[i + 1].0 == k;
    }
  }

  lemma {:induction false} SumForAbsent<K>(xs: seq<(K, int)>, k: K)
    requires k !in KeySet(xs)
    ensures SumFor(xs, k) == 0
  {
    if xs != [] {
      KeySetTail(xs);
      SumForAbsent(xs[1..], k);
    }
  }

  /** A key below every key of increasing groups can be put in front. */
  lemma IncreasingCons<K>(g: (K, int), rest: seq<(K, int)>, less: (K, K) -> bool)
    requires Increasing(rest, less)
    requires forall x :: x in KeySet(rest) ==> less(g.0, x)
    ensures Increasing([g] + rest, less)
  {
    var r := [g] + rest;
    forall i, j | 0 <= i < j < |r|
      ensures less(r[i].0, r[j].0)
    {
      assert r[j] == rest[j - 1];
      if i == 0 {
        assert rest[j - 1].0 in KeySet(rest);
      } else {
        assert r[i] == rest[i - 1];
      }
    }
  }

  /** Adds one value into groups kept in ascending key order. */
  function AddTo<K(==,!new)>(groups: seq<(K, int)>, k: K, v: int, less: (K, K) -> bool): (r: seq<(K, int)>)
    requires StrictOrder(less) && Increasing(groups, less)
    ensures Increasing(r, less)
    ensures KeySet(r) == KeySet(groups) + {k}
  {
    if groups == [] then
      assert KeySet([(k, v)]) == {k} by { KeySetTail([(k, v)]); }
      [(k, v)]
    else
      var g := groups[0];
      KeySetTail(groups);
      if g.0 == k then
        var r := [(k, g.1 + v)] + groups[1..];
        assert r[1..] == groups[1..];
        KeySetTail(r);
        AboveHead(groups, less);
        IncreasingCons((k, g.1 + v), groups[1..], less);
        r
      else if less(k, g.0) then
        var r := [(k, v)] + groups;
        assert r[1..] == groups;
        KeySetTail(r);
        AboveHead(groups, less);
        IncreasingCons((k, v), groups, less);
        r
      else
        var rest := AddTo(groups[1..], k, v, less);
        var r := [g] + rest;
        assert r[1..] == rest;
        KeySetTail(r);
        AboveHead(groups, less);
        assert less(g.0, k);
        IncreasingCons(g, rest, less);
        r
  }

  /** In increasing groups every later key lies above the first. */
  lemma AboveHead<K>(groups: seq<(K, int)>, less: (K, K) -> bool)
    requires Increasing(groups, less) && groups != []
    ensures forall x :: x in KeySet(groups[1..]) ==> less(groups[0].0, x)
  {
    forall x | x in KeySet(groups[1..])
      ensures less(groups[0].0, x)
    {
      var i :| 0 <= i < |groups[1..]| && groups[1..][i].0 == x;
      assert groups[i + 1].0 == x;
    }
  }

  /** Adding a value raises its key's sum, and the total, by that value and
      leaves every other key's sum alone. */
  lemma {:induction false} AddToSums<K(!new)>(groups: seq<(K, int)>, k: K, v: int, less: (K, K) -> bool)
    requires StrictOrder(less) && Increasing(groups, less)
    ensures forall x :: SumFor(AddTo(groups, k, v, less), x) == SumFor(groups, x) + (if x == k then v else 0)
    ensures Total(AddTo(groups, k, v, less)) == Total(groups) + v
  {
    var r := AddTo(groups, k, v, less);
    if groups != [] {
      var g := groups[0];
      if g.0 == k {
        assert r[1..] == groups[1..];
      } else if less(k, g.0) {
        assert r[1..] == groups;
      } else {
        AddToSums(groups[1..], k, v, less);
        assert r[1..] == AddTo(groups[1..], k, v, less);
      }
    }
  }

  /** `groupby(key)[value].sum()`: one row per distinct key, keys ascending,
      each row holding the sum of that key's values. */
  function GroupSum<K(==,!new)>(items: seq<(K, int)>, less: (K, K) -> bool): (r: seq<(K, int)>)
    requires StrictOrder(less)
    ensures Increasing(r, less)
    ensures KeySet(r) == KeySet(items)
    ensures forall x :: SumFor(r, x) == SumFor(items, x)
    ensures Total(r) == Total(items)
  {
    if items == [] then []
    else
      KeySetTail(items);
      AddToSums(GroupSum(items[1..], less), items[0].0, items[0].1, less);
      AddTo(GroupSum(items[1..], less), items[0].0, items[0].1, less)
  }

  /** In groups with ascending keys, each row's value is everything filed
      under its key. */
  lemma {:induction false} RowIsKeySum<K(!new)>(groups: seq<(K, int)>, less: (K, K) -> bool, i: nat)
    requires StrictOrder(less) && Increasing(groups, less) && i < |groups|
    ensures groups[i].1 == SumFor(groups, groups[i].0)
  {
    KeySetTail(groups);
    if i == 0 {
      if groups[0].0 in KeySet(groups[1..]) {
        assert false;
      }
      SumForAbsent(groups[1..], groups[0].0);
    } else {
      RowIsKeySum(groups[1..], less, i - 1);
      assert less(groups[0].0, groups[i].0);
    }
  }

  lemma {:induction false} RowsAreKeySums<K(!new)>(groups: seq<(K, int)>, less: (K, K) -> bool)
    requires StrictOrder(less) && Increasing(groups, less)
    ensures forall i :: 0 <= i < |groups| ==> groups[i].1 == SumFor(groups, groups[i].0)
  {
    forall i | 0 <= i < |groups|
      ensures groups[i].1 == SumFor(groups, groups[i].0)
    {
      RowIsKeySum(groups, less, i);
    }
  }

  // ------------------------------------------------------- daily summary

  function SessionSeconds(s: Session, now: Timestamp): int {
    DurationSeconds(Some(s.start), s.end, now)
  }

  /** The days the given sessions are dated. */
  function SessionDates(sessions: seq<Session>): set<Day> {
    set i | 0 <= i < |sessions| :: sessions[i].date
  }

  /** Seconds worked on day `d` over the given sessions. */
  function SecondsOn(sessions: seq<Session>, d: Day, now: Timestamp): int {
    if sessions == [] then 0
    else (if sessions[0].date == d then SessionSeconds(sessions[0], now) else 0) + SecondsOn(sessions[1..], d, now)
  }

  /** Seconds worked over all the given sessions. */
  function SecondsAll(sessions: seq<Session>, now: Timestamp): int {
    if sessions == [] then 0 else SessionSeconds(sessions[0], now) + SecondsAll(sessions[1..], now)
  }

  function DayItems(sessions: seq<Session>, now: Timestamp): (items: seq<(Day, int)>)
    ensures KeySet(items) == SessionDates(sessions)
    ensures forall d :: SumFor(items, d) == SecondsOn(sessions, d, now)
    ensures Total(items) == SecondsAll(sessions, now)
  {
    if sessions == [] then []
    else
      var rest := DayItems(sessions[1..], now);
      var items := [(sessions[0].date, SessionSeconds(sessions[0], now))] + rest;
      assert items[1..] == rest;
      KeySetTail(items);
      assert SessionDates(sessions) == {sessions[0].date} + SessionDates(sessions[1..]) by {
        forall d | d in SessionDates(sessions) && d != sessions[0].date
          ensures d in SessionDates(sessions[1..])
        {
          var i :| 0 <= i < |sessions| && sessions[i].date == d;
          assert sessions[1..][i - 1].date == d;
        }
        forall d | d in SessionDates(sessions[1..])
          ensures d in SessionDates(sessions)
        {
          var i :| 0 <= i < |sessions[1..]| && sessions[1..][i].date == d;
          assert sessions[i + 1].date == d;
        }
      }
      items
  }

  lemma IntLessIsStrictOrder()
    ensures StrictOrder((a: int, b: int) => a < b)
  {
  }

  /** The daily table and the total hours worked: one row per distinct
      session date, dates ascending, each row the seconds worked that day,
      and the total the sum of the rows, which is the sum over all sessions. */
  function DailyHoursSummary(sessions: seq<Session>, now: Timestamp): (r: (seq<(Day, int)>, int))
    ensures sessions == [] ==> r == ([], 0)
    ensures forall i, j :: 0 <= i < j < |r.0| ==> r.0[i].0 < r.0[j].0
    ensures KeySet(r.0) == SessionDates(sessions)
    ensures forall i :: 0 <= i < |r.0| ==> r.0[i].1 == SecondsOn(sessions, r.0[i].0, now)
    ensures r.1 == Total(r.0) && r.1 == SecondsAll(sessions, now)
  {
    IntLessIsStrictOrder();
    var less := (a: int, b: int) => a < b;
    var rows := GroupSum(DayItems(sessions, now), less);
    RowsAreKeySums(rows, less);
    (rows, Total(rows))
  }

  lemma NoSessionsInRange(db: Db, from: Day, to: Day)
    ensures ListSessionsBetween(db, from, to) == [] <==> forall k :: k in db.sessions ==> !(from <= db.sessions[k].date <= to)
  {
    EmptySessionListing(ListSessionsBetween(db, from, to), db.sessions, from, to);
  }

  /** A listing holding exactly the rows of a table dated in a range is
      empty just when no row is dated in the range. */
  lemma EmptySessionListing(r: seq<Session>, m: map<nat, Session>, from: Day, to: Day)
    requires forall k :: k in m ==> m[k].id == k
    requires forall s :: s in r <==> s.id in m && m[s.id] == s && from <= s.date <= to
    ensures r == [] <==> forall k :: k in m ==> !(from <= m[k].date <= to)
  {
    if r == [] {
      forall k | k in m
        ensures !(from <= m[k].date <= to)
      {
        assert m[k].id == k;
        assert m[k] !in r;
      }
    } else {
      assert r[0] in r;
    }
  }

  /** Seconds on a day, as a sum of per-session weights. */
  lemma {:induction false} SecondsOnAsSum(xs: seq<Session>, d: Day, now: Timestamp, w: Session -> int)
    requires forall s :: w(s) == (if s.date == d then SessionSeconds(s, now) else 0)
    ensures SecondsOn(xs, d, now) == SumOf(xs, w)
  {
    if xs != [] {
      SecondsOnAsSum(xs[1..], d, now, w);
    }
  }

  /** A listing of the sessions dated in a range counts the seconds of a
      day in the range as the full table scan does. */
  lemma ListedSecondsOn(listing: seq<Session>, all: seq<Session>, from: Day, to: Day, d: Day, now: Timestamp)
    requires Distinct(listing) && Distinct(all)
    requires forall s :: s in listing <==> s in all && from <= s.date <= to
    requires from <= d <= to
    ensures SecondsOn(listing, d, now) == SecondsOn(all, d, now)
  {
    var w := (s: Session) => if s.date == d then SessionSeconds(s, now) else 0;
    SecondsOnAsSum(listing, d, now, w);
    SecondsOnAsSum(all, d, now, w);
    SumsAgree(listing, all, w);
  }

  /** The dates of a listing of the rows dated in a range are the dates in
      the range that some row carries. */
  lemma ListedDates(listing: seq<Session>, m: map<nat, Session>, from: Day, to: Day)
    requires forall k :: k in m ==> m[k].id == k
    requires forall s :: s in listing <==> s.id in m && m[s.id] == s && from <= s.date <= to
    ensures SessionDates(listing) == set k | k in m && from <= m[k].date <= to :: m[k].date
  {
    forall d | d in SessionDates(listing)
      ensures d in set k | k in m && from <= m[k].date <= to :: m[k].date
    {
      var i :| 0 <= i < |listing| && listing[i].date == d;
      assert listing[i] in listing;
      assert m[listing[i].id].date == d;
    }
    forall k | k in m && from <= m[k].date <= to
      ensures m[k].date in SessionDates(listing)
    {
      assert m[k] in listing;
      var i :| 0 <= i < |listing| && listing[i] == m[k];
    }
  }

  /** `fetch_daily_hours_summary(start, end)` over the sessions dated in the
      range: one row per date in the range on which some session is dated,
      dates ascending, each row the seconds of every session dated that
      day, and the total the sum of the rows. */
  function FetchDailyHoursSummary(db: Db, from: Day, to: Day, now: Timestamp): (r: (seq<(Day, int)>, int))
    ensures r.0 == [] <==> forall k :: k in db.sessions ==> !(from <= db.sessions[k].date <= to)
    ensures KeySet(r.0) == set k | k in db.sessions && from <= db.sessions[k].date <= to :: db.sessions[k].date
    ensures forall i :: 0 <= i < |r.0| ==> from <= r.0[i].0 <= to
    ensures forall i, j :: 0 <= i < j < |r.0| ==> r.0[i].0 < r.0[j].0
    ensures forall i :: 0 <= i < |r.0| ==> r.0[i].1 == SecondsOn(AllSessions(db), r.0[i].0, now)
    ensures r.1 == Total(r.0)
  {
    var sessions := ListSessionsBetween(db, from, to);
    DailyOfListing(sessions, AllSessions(db), db.sessions, from, to, now);
    DailyHoursSummary(sessions, now)
  }

  /** The daily table of a listing of the rows dated in a range, read
      against the table and its full scan. */
  lemma DailyOfListing(sessions: seq<Session>, all: seq<Session>, m: map<nat, Session>, from: Day, to: Day, now: Timestamp)
    requires forall k :: k in m ==> m[k].id == k
    requires forall s :: s in all <==> s.id in m && m[s.id] == s
    requires forall s :: s in sessions <==> s in all && from <= s.date <= to
    requires Distinct(sessions) && Distinct(all)
    ensures var r := DailyHoursSummary(sessions, now);
      && (r.0 == [] <==> forall k :: k in m ==> !(from <= m[k].date <= to))
      && KeySet(r.0) == (set k | k in m && from <= m[k].date <= to :: m[k].date)
      && (forall i :: 0 <= i < |r.0| ==> from <= r.0[i].0 <= to)
      && (forall i :: 0 <= i < |r.0| ==> r.0[i].1 == SecondsOn(all, r.0[i].0, now))
  {
    var r := DailyHoursSummary(sessions, now);
    EmptySessionListing(sessions, m, from, to);
    ListedDates(sessions, m, from, to);
    forall i | 0 <= i < |r.0|
      ensures from <= r.0[i].0 <= to && r.0[i].1 == SecondsOn(all, r.0[i].0, now)
    {
      assert r.0[i].0 in KeySet(r.0);
      ListedSecondsOn(sessions, all, from, to, r.0[i].0, now);
    }
    if sessions != [] {
      assert sessions[0].date in SessionDates(sessions);
    }
  }

  // --------------------------------------------------- category breakdown

  /** One row of the category table: the category, seconds worked under it,
      and its share of all seconds worked. */
  datatype CategoryShare = CategoryShare(category: string, seconds: int, share: real)

  function EntrySeconds(d: DatedEntry, now: Timestamp): int {
    DurationSeconds(Some(d.entry.start), d.entry.end, now)
  }

  function EntryCategories(entries: seq<DatedEntry>): set<string> {
    set i | 0 <= i < |entries| :: entries[i].entry.category
  }

  /** Seconds filed under category `c` over the given entries. */
  function SecondsIn(entries: seq<DatedEntry>, c: string, now: Timestamp): int {
    if entries == [] then 0
    else (if entries[0].entry.category == c then EntrySeconds(entries[0], now) else 0) + SecondsIn(entries[1..], c, now)
  }

  function CategoryItems(entries: seq<DatedEntry>, now: Timestamp): (items: seq<(string, int)>)
    ensures KeySet(items) == EntryCategories(entries)
    ensures forall c :: SumFor(items, c) == SecondsIn(entries, c, now)
  {
    if entries == [] then []
    else
      var rest := CategoryItems(entries[1..], now);
      var items := [(entries[0].entry.category, EntrySeconds(entries[0], now))] + rest;
      assert items[1..] == rest;
      KeySetTail(items);
      assert EntryCategories(entries) == {entries[0].entry.category} + EntryCategories(entries[1..]) by {
        forall c | c in EntryCategories(entries) && c != entries[0].entry.category
          ensures c in EntryCategories(entries[1..])
        {
          var i :| 0 <= i < |entries| && entries[i].entry.category == c;
          assert entries[1..][i - 1].entry.category == c;
        }
        forall c | c in EntryCategories(entries[1..])
          ensures c in EntryCategories(entries)
        {
          var i :| 0 <= i < |entries[1..]| && entries[1..][i].entry.category == c;
          assert entries[i + 1].entry.category == c;
        }
      }
      items
  }

  lemma LexLessIsStrictOrder()
    ensures StrictOrder(LexLess)
  {
    forall a
      ensures !LexLess(a, a)
    {
      LexLessIrreflexive(a);
    }
    forall a, b, c | LexLess(a, b) && LexLess(b, c)
      ensures LexLess(a, c)
    {
      LexLessTransitive(a, b, c);
    }
    forall a, b
      ensures a == b || LexLess(a, b) || LexLess(b, a)
    {
      LexLessTotal(a, b);
    }
  }

  /** A share of the total; every share is 0 when the total is 0. */
  function ShareOf(part: int, total: int): real {
    if total != 0 then part as real / total as real else 0.0
  }

  /** The category table: `None` for no entries; otherwise one row per
      distinct category, categories ascending, each with its seconds and
      its share of the total. */
  function CategoryBreakdown(entries: seq<DatedEntry>, now: Timestamp): (r: Option<seq<CategoryShare>>)
    ensures r.None? <==> entries == []
    ensures r.Some? ==> forall i, j :: 0 <= i < j < |r.value| ==> LexLess(r.value[i].category, r.value[j].category)
    ensures r.Some? ==> (set i | 0 <= i < |r.value| :: r.value[i].category) == EntryCategories(entries)
    ensures r.Some? ==> forall i :: 0 <= i < |r.value| ==>
      && r.value[i].seconds == SecondsIn(entries, r.value[i].category, now)
      && r.value[i].share == ShareOf(r.value[i].seconds, SecondsTotal(r.value))
  {
    if entries == [] then None
    else
      LexLessIsStrictOrder();
      var groups := GroupSum(CategoryItems(entries, now), LexLess);
      RowsAreKeySums(groups, LexLess);
      var rows := ShareRows(groups);
      assert (set i | 0 <= i < |rows| :: rows[i].category) == KeySet(groups);
      Some(rows)
  }

  /** The seconds of all rows of a category table. */
  function SecondsTotal(rows: seq<CategoryShare>): int {
    if rows == [] then 0 else rows[0].seconds + SecondsTotal(rows[1..])
  }

  /** The shares of all rows of a category table. */
  function ShareTotal(rows: seq<CategoryShare>): real {
    if rows == [] then 0.0 else rows[0].share + ShareTotal(rows[1..])
  }

  /** The rows of a category table built from grouped seconds. */
  function ShareRows(groups: seq<(string, int)>): (rows: seq<CategoryShare>)
    ensures |rows| == |groups| && SecondsTotal(rows) == Total(groups)
    ensures forall i :: 0 <= i < |rows| ==>
      rows[i] == CategoryShare(groups[i].0, groups[i].1, ShareOf(groups[i].1, Total(groups)))
  {
    var total := Total(groups);
    var rows := seq(|groups|, i requires 0 <= i < |groups| => CategoryShare(groups[i].0, groups[i].1, ShareOf(groups[i].1, total)));
    SecondsTotalAgrees(groups, rows);
    rows
  }

  lemma {:induction false} SecondsTotalAgrees(groups: seq<(string, int)>, rows: seq<CategoryShare>)
    requires |rows| == |groups|
    requires forall i :: 0 <= i < |rows| ==> rows[i].seconds == groups[i].1
    ensures SecondsTotal(rows) == Total(groups)
  {
    if rows != [] {
      SecondsTotalAgrees(groups[1..], rows[1..]);
    }
  }

  /** Shares of a common non-zero total add up to the rows' seconds over that total. */
  lemma {:induction false} ShareTotalScaled(rows: seq<CategoryShare>, total: int)
    requires total != 0
    requires forall i :: 0 <= i < |rows| ==> rows[i].share == ShareOf(rows[i].seconds, total)
    ensures ShareTotal(rows) == SecondsTotal(rows) as real / total as real
  {
    if rows != [] {
      ShareTotalScaled(rows[1..], total);
      var t := total as real;
      var a := rows[0].seconds as real;
      var b := SecondsTotal(rows[1..]) as real;
      assert a / t + b / t == (a + b) / t;
    }
  }

  /** The shares of a non-zero total add up to one; with a zero total every
      share is zero. */
  lemma SharesSumToOne(entries: seq<DatedEntry>, now: Timestamp)
    requires CategoryBreakdown(entries, now).Some?
    ensures var rows := CategoryBreakdown(entries, now).value;
      && (SecondsTotal(rows) != 0 ==> ShareTotal(rows) == 1.0)
      && (SecondsTotal(rows) == 0 ==> forall i :: 0 <= i < |rows| ==> rows[i].share == 0.0)
  {
    var rows := CategoryBreakdown(entries, now).value;
    SharesOfOwnTotal(rows);
  }

  lemma SharesOfOwnTotal(rows: seq<CategoryShare>)
    requires forall i :: 0 <= i < |rows| ==> rows[i].share == ShareOf(rows[i].seconds, SecondsTotal(rows))
    ensures SecondsTotal(rows) != 0 ==> ShareTotal(rows) == 1.0
    ensures SecondsTotal(rows) == 0 ==> forall i :: 0 <= i < |rows| ==> rows[i].share == 0.0
  {
    var total := SecondsTotal(rows);
    if total != 0 {
      ShareTotalScaled(rows, total);
      RealSelfDivision(total);
    }
  }

  lemma RealSelfDivision(x: int)
    requires x != 0
    ensures x as real / x as real == 1.0
  {
  }

  lemma NoEntriesInRange(db: Db, from: Day, to: Day)
    ensures ListProjectEntriesBetween(db, from, to) == [] <==>
      forall k :: k in db.entries ==> !(from <= db.sessions[db.entries[k].sessionId].date <= to)
  {
    var r := ListProjectEntriesBetween(db, from, to);
    EmptyEntryListing(r, db.entries, db.sessions, from, to);
  }

  /** A listing holding exactly the entries whose session is dated in a
      range, each with that date, is empty just when there are none. */
  lemma EmptyEntryListing(r: seq<DatedEntry>, es: map<nat, Entry>, ss: map<nat, Session>, from: Day, to: Day)
    requires forall k :: k in es ==> es[k].id == k && es[k].sessionId in ss
    requires forall d :: d in r <==>
      d.entry.id in es && es[d.entry.id] == d.entry && d.sessionDate == ss[d.entry.sessionId].date && from <= d.sessionDate <= to
    ensures r == [] <==> forall k :: k in es ==> !(from <= ss[es[k].sessionId].date <= to)
  {
    if r == [] {
      forall k | k in es
        ensures !(from <= ss[es[k].sessionId].date <= to)
      {
        var d := DatedEntry(es[k], ss[es[k].sessionId].date);
        assert d.entry.id == k;
        assert d !in r;
      }
    } else {
      assert r[0] in r;
    }
  }

  /** Seconds filed under category `c` over the given entries whose
      session is dated within the range. */
  function SecondsInRange(entries: seq<DatedEntry>, c: string, from: Day, to: Day, now: Timestamp): int {
    if entries == [] then 0
    else
      (if entries[0].entry.category == c && from <= entries[0].sessionDate <= to then EntrySeconds(entries[0], now) else 0)
      + SecondsInRange(entries[1..], c, from, to, now)
  }

  lemma {:induction false} SecondsInAsSum(xs: seq<DatedEntry>, c: string, now: Timestamp, w: DatedEntry -> int)
    requires forall x :: x in xs ==> w(x) == (if x.entry.category == c then EntrySeconds(x, now) else 0)
    ensures SecondsIn(xs, c, now) == SumOf(xs, w)
  {
    if xs != [] {
      assert xs[0] in xs;
      SecondsInAsSum(xs[1..], c, now, w);
    }
  }

  lemma {:induction false} SecondsInRangeAsSum(xs: seq<DatedEntry>, c: string, from: Day, to: Day, now: Timestamp, w: DatedEntry -> int)
    requires forall x :: w(x) == (if x.entry.category == c && from <= x.sessionDate <= to then EntrySeconds(x, now) else 0)
    ensures SecondsInRange(xs, c, from, to, now) == SumOf(xs, w)
  {
    if xs != [] {
      SecondsInRangeAsSum(xs[1..], c, from, to, now, w);
    }
  }

  /** A listing of the entries dated in a range counts the seconds of a
      category as the full scan does when restricted to the range. */
  lemma ListedSecondsIn(listing: seq<DatedEntry>, all: seq<DatedEntry>, from: Day, to: Day, c: string, now: Timestamp)
    requires Distinct(listing) && Distinct(all)
    requires forall d :: d in listing <==> d in all && from <= d.sessionDate <= to
    ensures SecondsIn(listing, c, now) == SecondsInRange(all, c, from, to, now)
  {
    var w := (x: DatedEntry) => if x.entry.category == c && from <= x.sessionDate <= to then EntrySeconds(x, now) else 0;
    SecondsInAsSum(listing, c, now, w);
    SecondsInRangeAsSum(all, c, from, to, now, w);
    SumsAgree(listing, all, w);
  }

  /** The categories of a listing of the entries dated in a range are the
      categories of the entries whose session is dated in the range. */
  lemma ListedCategories(listing: seq<DatedEntry>, es: map<nat, Entry>, ss: map<nat, Session>, from: Day, to: Day)
    requires forall k :: k in es ==> es[k].id == k && es[k].sessionId in ss
    requires forall d :: d in listing <==>
      d.entry.id in es && es[d.entry.id] == d.entry && d.sessionDate == ss[d.entry.sessionId].date && from <= d.sessionDate <= to
    ensures EntryCategories(listing) == set k | k in es && from <= ss[es[k].sessionId].date <= to :: es[k].category
  {
    forall c | c in EntryCategories(listing)
      ensures c in set k | k in es && from <= ss[es[k].sessionId].date <= to :: es[k].category
    {
      var i :| 0 <= i < |listing| && listing[i].entry.category == c;
      assert listing[i] in listing;
      assert es[listing[i].entry.id].category == c;
    }
    forall k | k in es && from <= ss[es[k].sessionId].date <= to
      ensures es[k].category in EntryCategories(listing)
    {
      var d := DatedEntry(es[k], ss[es[k].sessionId].date);
      assert d in listing;
      var i :| 0 <= i < |listing| && listing[i] == d;
    }
  }

  /** The category table of a listing of the entries dated in a range,
      read against the tables and the full scan. */
  lemma BreakdownOfListing(listing: seq<DatedEntry>, all: seq<DatedEntry>, es: map<nat, Entry>, ss: map<nat, Session>,
                           from: Day, to: Day, now: Timestamp)
    requires forall k :: k in es ==> es[k].id == k && es[k].sessionId in ss
    requires forall d :: d in all <==> d.entry.id in es && es[d.entry.id] == d.entry && d.sessionDate == ss[d.entry.sessionId].date
    requires forall d :: d in listing <==> d in all && from <= d.sessionDate <= to
    requires Distinct(listing) && Distinct(all)
    ensures var r := CategoryBreakdown(listing, now);
      && (r.None? <==> forall k :: k in es ==> !(from <= ss[es[k].sessionId].date <= to))
      && (r.Some? ==> (set i | 0 <= i < |r.value| :: r.value[i].category)
                      == (set k | k in es && from <= ss[es[k].sessionId].date <= to :: es[k].category))
      && (r.Some? ==> forall i :: 0 <= i < |r.value| ==>
            r.value[i].seconds == SecondsInRange(all, r.value[i].category, from, to, now))
      && (r.Some? && SecondsTotal(r.value) != 0 ==> ShareTotal(r.value) == 1.0)
  {
    var r := CategoryBreakdown(listing, now);
    EmptyEntryListing(listing, es, ss, from, to);
    if r.Some? {
      ListedCategories(listing, es, ss, from, to);
      forall i | 0 <= i < |r.value|
        ensures r.value[i].seconds == SecondsInRange(all, r.value[i].category, from, to, now)
      {
        ListedSecondsIn(listing, all, from, to, r.value[i].category, now);
      }
      SharesSumToOne(listing, now);
    }
  }

  /** `fetch_category_breakdown(start, end)` over the entries whose session
      is dated in the range: `None` when there are none; otherwise one row
      per category filed on some such entry, categories ascending, each row
      the seconds of every such entry under it and its share of the
      table's seconds, the shares adding up to one unless no second was
      worked. */
  function FetchCategoryBreakdown(db: Db, from: Day, to: Day, now: Timestamp): (r: Option<seq<CategoryShare>>)
    ensures r.None? <==> forall k :: k in db.entries ==> !(from <= db.sessions[db.entries[k].sessionId].date <= to)
    ensures r.Some? ==>
      (set i | 0 <= i < |r.value| :: r.value[i].category)
      == (set k | k in db.entries && from <= db.sessions[db.entries[k].sessionId].date <= to :: db.entries[k].category)
    ensures r.Some? ==> forall i, j :: 0 <= i < j < |r.value| ==> LexLess(r.value[i].category, r.value[j].category)
    ensures r.Some? ==> forall i :: 0 <= i < |r.value| ==>
      && r.value[i].seconds == SecondsInRange(JoinAll(db), r.value[i].category, from, to, now)
      && r.value[i].share == ShareOf(r.value[i].seconds, SecondsTotal(r.value))
    ensures r.Some? && SecondsTotal(r.value) != 0 ==> ShareTotal(r.value) == 1.0
  {
    var entries := ListProjectEntriesBetween(db, from, to);
    ListedEntriesBreakdown(db, from, to, now);
    CategoryBreakdown(entries, now)
  }

  lemma ListedEntriesBreakdown(db: Db, from: Day, to: Day, now: Timestamp)
    ensures var r := CategoryBreakdown(ListProjectEntriesBetween(db, from, to), now);
      && (r.None? <==> forall k :: k in db.entries ==> !(from <= db.sessions[db.entries[k].sessionId].date <= to))
      && (r.Some? ==> (set i | 0 <= i < |r.value| :: r.value[i].category)
                      == (set k | k in db.entries && from <= db.sessions[db.entries[k].sessionId].date <= to :: db.entries[k].category))
      && (r.Some? ==> forall i :: 0 <= i < |r.value| ==>
            r.value[i].seconds == SecondsInRange(JoinAll(db), r.value[i].category, from, to, now))
      && (r.Some? && SecondsTotal(r.value) != 0 ==> ShareTotal(r.value) == 1.0)
  {
    BreakdownOfListing(ListProjectEntriesBetween(db, from, to), JoinAll(db), db.entries, db.sessions, from, to, now);
  }
}
