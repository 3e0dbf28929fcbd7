/** The fixed-shape subset `YYYY-MM-DDTHH:MM:SSZ` of the RFC 3339 `date-time`
    (section 5.6 of RFC 3339) that Go's `time.Parse(time.RFC3339, ...)` reads in
    this program, and the two `Time.Format` layouts the summaries group by:
    `"2006"` (the year) and `"2006-01-02"` (the date). */
module TimeFormat {
  import opened Results
  import opened Decimal
  import opened Civil
  import Ordering

  /** The layouts `BuildListOf` and `FilterEventsFrom` are called with. */
  datatype Layout = YearLayout | DateLayout

  /** `t.Format("2006")`: the year on four digits. */
  function YearKey(t: Time): (key: string)
    ensures |key| == 4 && AllDigits(key)
  {
    assert Pow10(4) == 10000;
    Pad(t.year, 4)
  }

  /** `t.Format("2006-01-02")`: the date, each field zero-padded. */
  function DateKey(t: Time): (key: string)
    ensures |key| == 10 && key[..4] == YearKey(t)
  {
    assert Pow10(2) == 100;
    YearKey(t) + "-" + Pad(t.month, 2) + "-" + Pad(t.day, 2)
  }

  /** `t.Format(layout)` for the two period layouts. */
  function Key(layout: Layout, t: Time): string
  {
    match layout
    case YearLayout => YearKey(t)
    case DateLayout => DateKey(t)
  }

  /** `HH:MM`, the clock part that the `add` command takes. */
  function ClockKey(t: Time): (key: string)
    ensures |key| == 5
  {
    assert Pow10(2) == 100;
    Pad(t.hour, 2) + ":" + Pad(t.minute, 2)
  }

  /** `t.Format(time.RFC3339)` for a UTC instant. */
  function Format(t: Time): (s: string)
    ensures |s| == 20
  {
    assert Pow10(2) == 100;
    DateKey(t) + "T" + ClockKey(t) + ":" + Pad(t.second, 2) + "Z"
  }

  /** The character shape of `YYYY-MM-DDTHH:MM:SSZ`. */
  predicate WellShaped(s: string)
  {
    && |s| == 20
    && AllDigits(s[0..4]) && s[4] == '-' && AllDigits(s[5..7]) && s[7] == '-' && AllDigits(s[8..10])
    && s[10] == 'T' && AllDigits(s[11..13]) && s[13] == ':' && AllDigits(s[14..16]) && s[16] == ':'
    && AllDigits(s[17..19]) && s[19] == 'Z'
  }

  /** In a well-shaped text the letter `T` stands only between date and time. */
  lemma WellShapedSeparator(s: string)
    requires WellShaped(s)
    ensures forall i | 0 <= i < 20 && i != 10 :: s[i] != 'T'
  {
    forall i | 0 <= i < 20 && i != 10
      ensures s[i] != 'T'
    {
      if i < 4 { assert IsDigit(s[0..4][i]); }
      else if 5 <= i < 7 { assert IsDigit(s[5..7][i - 5]); }
      else if 8 <= i < 10 { assert IsDigit(s[8..10][i - 8]); }
      else if 11 <= i < 13 { assert IsDigit(s[11..13][i - 11]); }
      else if 14 <= i < 16 { assert IsDigit(s[14..16][i - 14]); }
      else if 17 <= i < 19 { assert IsDigit(s[17..19][i - 17]); }
    }
  }

  /** The fields a well-shaped text spells, before any range check. */
  function Fields(s: string): Timestamp
    requires WellShaped(s)
  {
    Timestamp(DigitsValue(s[0..4]), DigitsValue(s[5..7]), DigitsValue(s[8..10]),
              DigitsValue(s[11..13]), DigitsValue(s[14..16]), DigitsValue(s[17..19]))
  }

  /** `time.Parse(time.RFC3339, s)` on the fixed-shape subset: a text of another
      shape is a syntax error; a month, day, hour, minute or second out of range
      (the 30th of February, hour 24, second 60) is a range error. */
  function Parse(s: string): (r: Result<Time>)
    ensures r.Ok? <==> WellShaped(s) && Valid(Fields(s))
    ensures r.Ok? ==> Format(r.value) == s
  {
    if !WellShaped(s) then Err(SyntaxError(s))
    else if !Valid(Fields(s)) then Err(RangeError(s))
    else
      var t: Time := Fields(s);
      FormatFields(s);
      Ok(t)
  }

  /** Printing the fields of a well-shaped text at their widths gives it back. */
  lemma FormatFields(s: string)
    requires WellShaped(s) && Valid(Fields(s))
    ensures Format(Fields(s)) == s
  {
    var t: Time := Fields(s);
    DateFields(s);
    ClockFields(s);
    assert Pow10(2) == 100;
    ReadThenPad(s[17..19]);
    WellShapedJoin(s);
  }

  /** The date key of the fields of a well-shaped text is its first ten characters. */
  lemma DateFields(s: string)
    requires WellShaped(s) && Valid(Fields(s))
    ensures DateKey(Fields(s)) == s[0..4] + "-" + s[5..7] + "-" + s[8..10]
  {
    assert Pow10(2) == 100 && Pow10(4) == 10000;
    ReadThenPad(s[0..4]);
    ReadThenPad(s[5..7]);
    ReadThenPad(s[8..10]);
  }

  /** The clock key of the fields of a well-shaped text is its hour and minute. */
  lemma ClockFields(s: string)
    requires WellShaped(s) && Valid(Fields(s))
    ensures ClockKey(Fields(s)) == s[11..13] + ":" + s[14..16]
  {
    assert Pow10(2) == 100;
    ReadThenPad(s[11..13]);
    ReadThenPad(s[14..16]);
  }

  /** A well-shaped text is its fields joined by its separators. */
  lemma WellShapedJoin(s: string)
    requires WellShaped(s)
    ensures s == (s[0..4] + "-" + s[5..7] + "-" + s[8..10]) + "T" + (s[11..13] + ":" + s[14..16]) + ":" + s[17..19] + "Z"
  {
    assert s == s[0..4] + [s[4]] + s[5..7] + [s[7]] + s[8..10] + [s[10]] + s[11..13] + [s[13]]
                + s[14..16] + [s[16]] + s[17..19] + [s[19]];
  }

  /** Where each field of an instant stands in its date key. */
  lemma DateKeyLayout(t: Time)
    ensures DateKey(t)[0..4] == Pad(t.year, 4) && DateKey(t)[4] == '-'
    ensures DateKey(t)[5..7] == Pad(t.month, 2) && DateKey(t)[7] == '-'
    ensures DateKey(t)[8..10] == Pad(t.day, 2)
  {
    assert Pow10(2) == 100 && Pow10(4) == 10000;
  }

  /** Where each field of an instant stands in its RFC 3339 text. */
  lemma FormatLayout(t: Time)
    ensures Format(t)[..10] == DateKey(t) && Format(t)[10] == 'T'
    ensures Format(t)[11..13] == Pad(t.hour, 2) && Format(t)[13] == ':'
    ensures Format(t)[14..16] == Pad(t.minute, 2) && Format(t)[16] == ':'
    ensures Format(t)[11..16] == ClockKey(t)
    ensures Format(t)[17..19] == Pad(t.second, 2) && Format(t)[19] == 'Z'
  {
    assert Pow10(2) == 100;
  }

  /** Parsing what `Format` prints gives the same instant back. */
  lemma ParseAfterFormat(t: Time)
    ensures Parse(Format(t)) == Ok(t)
  {
    FormatIsWellShaped(t);
    FieldsOfFormat(t);
  }

  /** What `Format` prints has the fixed shape. */
  lemma FormatIsWellShaped(t: Time)
    ensures WellShaped(Format(t))
  {
    assert Pow10(2) == 100 && Pow10(4) == 10000;
    var s := Format(t);
    FormatLayout(t);
    DateKeyLayout(t);
    var d := DateKey(t);
    assert s[0..4] == d[0..4] == Pad(t.year, 4);
    assert s[5..7] == d[5..7] == Pad(t.month, 2);
    assert s[8..10] == d[8..10] == Pad(t.day, 2);
    assert s[4] == d[4] && s[7] == d[7];
    assert AllDigits(s[0..4]) && AllDigits(s[5..7]) && AllDigits(s[8..10]);
    assert AllDigits(s[11..13]) && AllDigits(s[14..16]) && AllDigits(s[17..19]);
  }

  /** The fields of what `Format` prints are those of the instant. */
  lemma FieldsOfFormat(t: Time)
    requires WellShaped(Format(t))
    ensures Fields(Format(t)) == t
  {
    assert Pow10(2) == 100 && Pow10(4) == 10000;
    var s := Format(t);
    FormatLayout(t);
    DateKeyLayout(t);
    assert s[0..4] == DateKey(t)[0..4] && s[5..7] == DateKey(t)[5..7] && s[8..10] == DateKey(t)[8..10];
    PadThenRead(t.year, 4);
    PadThenRead(t.month, 2);
    PadThenRead(t.day, 2);
    PadThenRead(t.hour, 2);
    PadThenRead(t.minute, 2);
    PadThenRead(t.second, 2);
  }

  /** Different instants print differently. */
  lemma FormatInjective(a: Time, b: Time)
    requires Format(a) == Format(b)
    ensures a == b
  {
    ParseAfterFormat(a);
    ParseAfterFormat(b);
  }

  /** Two instants share a date key exactly when they fall on the same date. */
  lemma DateKeySameDate(a: Time, b: Time)
    ensures DateKey(a) == DateKey(b) <==> (a.year, a.month, a.day) == (b.year, b.month, b.day)
  {
    if DateKey(a) == DateKey(b) {
      var ma := Timestamp(a.year, a.month, a.day, 0, 0, 0);
      var mb := Timestamp(b.year, b.month, b.day, 0, 0, 0);
      assert Format(ma) == DateKey(a) + "T00:00:00Z" by { assert Pad(0, 2) == "00"; }
      assert Format(mb) == DateKey(b) + "T00:00:00Z" by { assert Pad(0, 2) == "00"; }
      FormatInjective(ma, mb);
    }
  }

  /** Two instants share a year key exactly when they fall in the same year. */
  lemma YearKeySameYear(a: Time, b: Time)
    ensures YearKey(a) == YearKey(b) <==> a.year == b.year
  {
    assert Pow10(4) == 10000;
    PadThenRead(a.year, 4);
    PadThenRead(b.year, 4);
  }

  /** Year keys compare as strings in the order of the years, because they all
      have four digits: sorting by the key string is sorting by year. */
  lemma YearKeyOrder(a: Time, b: Time)
    ensures Ordering.Less(YearKey(a), YearKey(b)) <==> a.year < b.year
  {
    assert Pow10(4) == 10000;
    Ordering.LessDigitsIsLessValue(YearKey(a), YearKey(b));
    PadThenRead(a.year, 4);
    PadThenRead(b.year, 4);
  }
}
