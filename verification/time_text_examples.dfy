/** Worked inputs of the time-text parser: the shapes it refuses, the
    values it range-checks, and a padded text it accepts. */
module TimeTextExamples {
  import opened Wrappers
  import opened Text
  import opened TimeText

  /** A text without surrounding blanks is parsed as it stands. */
  lemma Unpadded(t: string)
    requires Trimmed(t)
    ensures Strip(t) == t
  {
    StripPadded([], t, []);
    assert [] + t + [] == t;
  }

  lemma EmptyRefused()
    ensures ParseTimeText("") == Err(Malformed)
  {
    Unpadded("");
  }

  lemma LettersRefused()
    ensures ParseTimeText("abc") == Err(Malformed)
  {
    Unpadded("abc");
  }

  lemma ShortMinuteRefused()
    ensures ParseTimeText("12:3") == Err(Malformed)
  {
    Unpadded("12:3");
    assert Lex("12:3").None?;
  }

  lemma LongHourRefused()
    ensures ParseTimeText("123:45") == Err(Malformed)
  {
    Unpadded("123:45");
    assert Lex("123:45").None?;
  }

  lemma ExtraFieldRefused()
    ensures ParseTimeText("12:30:00:00") == Err(Malformed)
  {
    Unpadded("12:30:00:00");
    assert Lex("12:30:00:00").None?;
  }

  lemma HourOutOfRange()
    ensures ParseTimeText("25:00") == Err(OutOfRange)
  {
    var f := TimeFields(TwoDigits(25), TwoDigits(0), None);
    assert Join(f) == "25:00";
    assert [] + Join(f) + [] == "25:00";
    ParseShaped([], f, []);
  }

  lemma MinuteOutOfRange()
    ensures ParseTimeText("12:60") == Err(OutOfRange)
  {
    var f := TimeFields(TwoDigits(12), TwoDigits(60), None);
    assert Join(f) == "12:60";
    assert [] + Join(f) + [] == "12:60";
    ParseShaped([], f, []);
  }

  lemma SecondsRefused()
    ensures ParseTimeText("12:30:05") == Err(NonZeroSeconds)
  {
    var f := TimeFields(TwoDigits(12), TwoDigits(30), Some(TwoDigits(5)));
    assert Join(f) == "12:30:05";
    assert [] + Join(f) + [] == "12:30:05";
    ParseShaped([], f, []);
  }

  /** A one-digit hour with blanks around it is accepted. */
  lemma PaddedAccepted()
    ensures ParseTimeText(" 9:05 ") == Ok(TimeOfDay(9, 5, 0))
  {
    var h := [DigitChar(9)];
    assert DecimalValue(h) == 9 by {
      assert h[..|h| - 1] == [];
    }
    var f := TimeFields(h, TwoDigits(5), None);
    assert WellFormed(f);
    assert Join(f) == "9:05";
    assert " " + Join(f) + " " == " 9:05 ";
    ParseShaped(" ", f, " ");
  }

  /** A zero seconds field is accepted and dropped. */
  lemma ZeroSecondsAccepted()
    ensures ParseTimeText("23:59:00") == Ok(TimeOfDay(23, 59, 0))
  {
    var f := TimeFields(TwoDigits(23), TwoDigits(59), Some(TwoDigits(0)));
    assert Join(f) == "23:59:00";
    assert [] + Join(f) + [] == "23:59:00";
    ParseShaped([], f, []);
  }
}
