/** The time-of-day text field of the admin forms: `parse_time_text` and
    `format_time_value` (services.py, repeated verbatim as `_parse_time_text`
    and `_format_time_value` in app.py). */
module TimeText {
  import opened Wrappers
  import opened Text

  /** Python's `datetime.time`, without microseconds. */
  datatype TimeOfDay = TimeOfDay(hour: nat, minute: nat, second: nat) {
    predicate Valid() {
      hour < 24 && minute < 60 && second < 60
    }
  }

  /** Why a text was refused; the source raises a bare `ValueError` for all three. */
  datatype TimeTextError = Malformed | OutOfRange | NonZeroSeconds

  /** The three capture groups of the input pattern
      `(\d{1,2}):(\d{2})(?::(\d{2}))?`. */
  datatype TimeFields = TimeFields(hour: string, minute: string, second: Option<string>)

  predicate WellFormed(f: TimeFields) {
    && 1 <= |f.hour| <= 2 && AllDigits(f.hour)
    && |f.minute| == 2 && AllDigits(f.minute)
    && (f.second.Some? ==> |f.second.value| == 2 && AllDigits(f.second.value))
  }

  /** The text a set of fields spells: `H:MM`, `HH:MM`, `H:MM:SS` or `HH:MM:SS`. */
  function Join(f: TimeFields): string {
    f.hour + ":" + f.minute + (if f.second.Some? then ":" + f.second.value else "")
  }

  /** Matching the pattern against an already stripped text. The hour group
      is greedy, and backtracking to one digit can never succeed when the
      second character is a digit, so a single scan decides the match. */
  function Lex(t: string): (r: Option<TimeFields>)
    ensures r.Some? ==> WellFormed(r.value) && Join(r.value) == t
  {
    if |t| < 4 || !IsDigit(t[0]) then None
    else
      var h := if IsDigit(t[1]) then 2 else 1;
      if |t| < h + 3 || t[h] != ':' || !IsDigit(t[h + 1]) || !IsDigit(t[h + 2]) then None
      else if |t| == h + 3 then
        var f := TimeFields(t[..h], t[h + 1..h + 3], None);
        assert Join(f) == t;
        Some(f)
      else if |t| == h + 6 && t[h + 3] == ':' && IsDigit(t[h + 4]) && IsDigit(t[h + 5]) then
        var f := TimeFields(t[..h], t[h + 1..h + 3], Some(t[h + 4..]));
        assert Join(f) == t;
        Some(f)
      else None
  }

  /** The matcher inverts `Join`: every text the pattern describes is
      matched, with the very fields that spell it. */
  lemma LexJoin(f: TimeFields)
    requires WellFormed(f)
    ensures Lex(Join(f)) == Some(f)
  {
    var t := Join(f);
    var h := |f.hour|;
    assert t[..h] == f.hour;
    assert t[h] == ':';
    assert t[h + 1..h + 3] == f.minute;
    if h == 1 {
      assert !IsDigit(t[1]);
    } else {
      assert IsDigit(t[1]);
    }
    if f.second.Some? {
      assert t[h + 3] == ':';
      assert t[h + 4..] == f.second.value;
    }
  }

  /** The matcher refuses exactly the texts that no well-formed set of
      fields spells. */
  lemma LexNoneIff(t: string)
    ensures Lex(t).None? <==> forall f :: WellFormed(f) ==> Join(f) != t
  {
    forall f | WellFormed(f) && Join(f) == t
      ensures Lex(t).Some?
    {
      LexJoin(f);
    }
  }

  /** `parse_time_text`: strip, match the pattern, range-check hour and
      minute, and refuse any seconds other than zero. */
  function ParseTimeText(raw: string): (r: Result<TimeOfDay, TimeTextError>)
    ensures r.Ok? ==> r.value.Valid() && r.value.second == 0
    ensures r == Err(Malformed) <==> forall f :: WellFormed(f) ==> Join(f) != Strip(raw)
  {
    var t := Strip(raw);
    match Lex(t)
    case None =>
      LexNoneIff(t);
      Err(Malformed)
    case Some(f) =>
      assert WellFormed(f) && Join(f) == t;
      var hour := DecimalValue(f.hour);
      var minute := DecimalValue(f.minute);
      if !(hour < 24 && minute < 60) then Err(OutOfRange)
      else if f.second.Some? && DecimalValue(f.second.value) != 0 then Err(NonZeroSeconds)
      else Ok(TimeOfDay(hour, minute, 0))
  }

  /** What the parser returns for every text of the accepted shape, padded
      with any whitespace: the independent statement of the grammar, the
      range checks and the seconds rule. */
  lemma ParseShaped(pre: string, f: TimeFields, post: string)
    requires AllSpace(pre) && AllSpace(post) && WellFormed(f)
    ensures var hour, minute := DecimalValue(f.hour), DecimalValue(f.minute);
      ParseTimeText(pre + Join(f) + post) ==
        if !(hour < 24 && minute < 60) then Err(OutOfRange)
        else if f.second.Some? && DecimalValue(f.second.value) != 0 then Err(NonZeroSeconds)
        else Ok(TimeOfDay(hour, minute, 0))
  {
    var t := Join(f);
    assert !IsSpace(t[0]) && !IsSpace(t[|t| - 1]);
    StripPadded(pre, t, post);
    LexJoin(f);
  }

  /** `format_time_value`: zero-padded `HH:MM`, seconds dropped, and
      midnight when no time is given. */
  function FormatTimeValue(v: Option<TimeOfDay>): (r: string)
    requires v.Some? ==> v.value.Valid()
    ensures |r| == 5 && r[2] == ':' && AllDigits(r[..2]) && AllDigits(r[3..])
    ensures DecimalValue(r[..2]) == (if v.Some? then v.value.hour else 0)
    ensures DecimalValue(r[3..]) == (if v.Some? then v.value.minute else 0)
  {
    var t := if v.Some? then v.value else TimeOfDay(0, 0, 0);
    var r := TwoDigits(t.hour) + ":" + TwoDigits(t.minute);
    assert r[..2] == TwoDigits(t.hour) && r[3..] == TwoDigits(t.minute);
    r
  }

  /** No time formats as midnight. */
  lemma FormatNone()
    ensures FormatTimeValue(None) == "00:00"
  {
    var r := FormatTimeValue(None);
    assert r[..2] == [r[0], r[1]] && r[3..] == [r[3], r[4]];
    assert r[..2][..1] == [r[0]] && r[3..][..1] == [r[3]];
  }

  /** Formatting ignores the seconds. */
  lemma FormatDropsSeconds(t: TimeOfDay)
    requires t.Valid()
    ensures FormatTimeValue(Some(t)) == FormatTimeValue(Some(t.(second := 0)))
  {
  }

  /** The round trip: parsing what was formatted gives the time back, for
      every time whose seconds are zero. */
  lemma ParseFormat(t: TimeOfDay)
    requires t.Valid() && t.second == 0
    ensures ParseTimeText(FormatTimeValue(Some(t))) == Ok(t)
  {
    var s := FormatTimeValue(Some(t));
    var f := TimeFields(s[..2], s[3..], None);
    assert Join(f) == s;
    assert [] + Join(f) + [] == s;
    ParseShaped([], f, []);
  }

  /** Every accepted text formats back to a text the parser maps to the
      same time. */
  lemma FormatParse(raw: string)
    requires ParseTimeText(raw).Ok?
    ensures ParseTimeText(FormatTimeValue(Some(ParseTimeText(raw).value))) == ParseTimeText(raw)
  {
    ParseFormat(ParseTimeText(raw).value);
  }
}
