/** Time arithmetic on integers. A timestamp is a count of seconds of
    wall-clock time in the tracker's fixed zone, counted from midnight of
    1970-01-01; a day is a count of days from that date. */
module Clock {
  import opened Wrappers
  import TimeText

  type Timestamp = int
  type Day = int

  const SecondsPerDay: nat := 86400

  /** `datetime.date()`: the calendar day a timestamp falls on. */
  function DayOf(t: Timestamp): (d: Day)
    ensures d * SecondsPerDay <= t < (d + 1) * SecondsPerDay
  {
    t / SecondsPerDay
  }

  /** `datetime.combine(day, time.min)`: the first second of a day. */
  function Midnight(d: Day): (t: Timestamp)
    ensures DayOf(t) == d
  {
    d * SecondsPerDay
  }

  /** `datetime.combine(day, time)`: a day and a time of day as one timestamp. */
  function Combine(d: Day, tod: TimeText.TimeOfDay): (t: Timestamp)
    requires tod.Valid()
    ensures DayOf(t) == d
    ensures t - Midnight(d) == tod.hour * 3600 + tod.minute * 60 + tod.second
  {
    Midnight(d) + tod.hour * 3600 + tod.minute * 60 + tod.second
  }

  /** Combining is injective in the time of day: the stored timestamp
      determines the time that was entered. */
  lemma CombineInjective(d: Day, a: TimeText.TimeOfDay, b: TimeText.TimeOfDay)
    requires a.Valid() && b.Valid()
    requires Combine(d, a) == Combine(d, b)
    ensures a == b
  {
    // Below an hour the minutes and seconds add up to at most 3599, and
    // below a minute the seconds to at most 59: the larger unit decides.
    var x := a.minute * 60 + a.second;
    var y := b.minute * 60 + b.second;
    assert 0 <= x < 3600 && 0 <= y < 3600;
    assert a.hour * 3600 + x == b.hour * 3600 + y;
    assert a.hour == b.hour;
    assert a.minute == b.minute;
  }

  /** `date.weekday()`: Monday is 0 and Sunday is 6; day 0 was a Thursday. */
  function Weekday(d: Day): (w: nat)
    ensures w < 7
  {
    (d + 3) % 7
  }

  /** The weekday read off a division of the shifted day number by seven. */
  lemma WeekdayFromQuotient(d: Day, q: int, w: int)
    requires d + 3 == 7 * q + w && 0 <= w < 7
    ensures Weekday(d) == w
  {
  }

  /** Consecutive days have consecutive weekdays, Sunday wrapping to Monday. */
  lemma WeekdayNext(d: Day)
    ensures Weekday(d + 1) == (Weekday(d) + 1) % 7
    ensures Weekday(d + 7) == Weekday(d)
  {
    var q, w := (d + 3) / 7, Weekday(d);
    assert d + 3 == 7 * q + w;
    if w == 6 {
      WeekdayFromQuotient(d + 1, q + 1, 0);
    } else {
      WeekdayFromQuotient(d + 1, q, w + 1);
    }
    WeekdayFromQuotient(d + 7, q + 1, w);
  }

  /** `format_duration_hours` in seconds: no start gives 0, and a missing end
      is replaced by the current time. */
  function DurationSeconds(start: Option<Timestamp>, end: Option<Timestamp>, now: Timestamp): (secs: int)
    ensures start.None? ==> secs == 0
    ensures start.Some? ==> secs == (if end.Some? then end.value else now) - start.value
  {
    match start
    case None => 0
    case Some(s) =>
      var e := if end.Some? then end.value else now;
      e - s
  }

  /** A later end never gives a shorter duration. */
  lemma DurationMonotonic(start: Option<Timestamp>, e1: Timestamp, e2: Timestamp, now: Timestamp)
    requires e1 <= e2
    ensures DurationSeconds(start, Some(e1), now) <= DurationSeconds(start, Some(e2), now)
  {
  }

  /** A running interval measured later never looks shorter. */
  lemma RunningDurationMonotonic(start: Option<Timestamp>, now1: Timestamp, now2: Timestamp)
    requires now1 <= now2
    ensures DurationSeconds(start, None, now1) <= DurationSeconds(start, None, now2)
  {
  }

  /** Durations are never negative when the end is not before the start. */
  lemma DurationNonNegative(start: Timestamp, end: Timestamp, now: Timestamp)
    ensures DurationSeconds(Some(start), Some(end), now) >= 0 <==> start <= end
  {
  }

  /** Splitting an interval at any point splits its duration. */
  lemma DurationAdditive(a: Timestamp, b: Timestamp, c: Timestamp, now: Timestamp)
    ensures DurationSeconds(Some(a), Some(b), now) + DurationSeconds(Some(b), Some(c), now)
         == DurationSeconds(Some(a), Some(c), now)
  {
  }
}
