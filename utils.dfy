/** Helpers of the `utils` package: building timestamps from the command line's
    date and time texts, the fail-fast rule, duration formatting, and the
    grouping and summing helpers the two summaries are built from. */
module Utils {
  import opened Results
  import opened Decimal
  import opened Civil
  import opened TimeFormat
  import opened Models

  // ---------------------------------------------------------------------------
  // Timestamps from text

  /** `TimeFromDateString(date)`: parse `date + "T00:00:00Z"`, midnight UTC of
      that date; anything but a valid `YYYY-MM-DD` is an error. */
  function TimeFromDateString(date: string): (r: Result<Time>)
    ensures r.Ok? ==> DateKey(r.value) == date
    ensures r.Ok? ==> r.value.hour == 0 && r.value.minute == 0 && r.value.second == 0
  {
    var r := Parse(date + "T00:00:00Z");
    if r.Ok? then MidnightReadBack(date, r.value); r else r
  }

  /** `TimeFromDateStringAndTimeString(date, clock)`: parse
      `date + "T" + clock + ":00Z"`, so the seconds are always zero. */
  function TimeFromDateStringAndTimeString(date: string, clock: string): (r: Result<Time>)
    ensures r.Ok? ==> DateKey(r.value) == date && ClockKey(r.value) == clock && r.value.second == 0
  {
    var r := Parse(date + "T" + clock + ":00Z");
    if r.Ok? then
      assert date + "T" + clock + ":00Z" == date + "T" + clock + ":" + "00" + "Z";
      ReadBack(date, clock, "00", r.value);
      r
    else r
  }

  /** `TimeFromDateStringAndTimeString2(date, clock)`: parse
      `date + "T" + clock + "Z"`, the clock given with its seconds. */
  function TimeFromDateStringAndTimeString2(date: string, clock: string): (r: Result<Time>)
    ensures r.Ok? ==> Format(r.value) == date + "T" + clock + "Z"
    ensures r.Ok? ==> DateKey(r.value) == date
    ensures r.Ok? && r.value.second == 0 ==> ClockKey(r.value) + ":00" == clock
  {
    var r := Parse(date + "T" + clock + "Z");
    if r.Ok? then ReadBackWithSeconds(date, clock, r.value); r else r
  }

  /** `TimeFromString(s)`: parse `s + "Z"`, an RFC 3339 text without its zone. */
  function TimeFromString(s: string): (r: Result<Time>)
    ensures r.Ok? ==> Format(r.value) == s + "Z"
  {
    Parse(s + "Z")
  }

  /** Where `date + "T"` ends in a well-shaped text. */
  lemma DateBeforeSeparator(date: string, rest: string, t: Time)
    requires Format(t) == date + "T" + rest
    ensures date == DateKey(t) && rest == Format(t)[11..]
  {
    var s := Format(t);
    ParseAfterFormat(t);
    assert s[|date|] == 'T';
    WellShapedSeparator(s);
    FormatLayout(t);
    assert date == s[..10];
    assert rest == s[11..];
  }

  /** Reading the date, the clock and the seconds back out of
      `date + "T" + clock + ":" + seconds + "Z"`. */
  lemma ReadBack(date: string, clock: string, seconds: string, t: Time)
    requires Format(t) == date + "T" + clock + ":" + seconds + "Z"
    requires |seconds| == 2 && AllDigits(seconds)
    ensures DateKey(t) == date && ClockKey(t) == clock && t.second == DigitsValue(seconds)
  {
    var s := Format(t);
    assert s == date + "T" + (clock + ":" + seconds + "Z");
    DateBeforeSeparator(date, clock + ":" + seconds + "Z", t);
    FormatLayout(t);
    assert |clock| == 5;
    assert clock == s[11..16];
    assert seconds == s[17..19];
    assert Pow10(2) == 100;
    PadThenRead(t.second, 2);
  }

  /** The same, for a clock text that carries its own seconds. */
  lemma ReadBackWithSeconds(date: string, clock: string, t: Time)
    requires Format(t) == date + "T" + clock + "Z"
    ensures DateKey(t) == date
    ensures t.second == 0 ==> ClockKey(t) + ":00" == clock
  {
    var s := Format(t);
    assert s == date + "T" + (clock + "Z");
    DateBeforeSeparator(date, clock + "Z", t);
    FormatLayout(t);
    assert clock == s[11..19];
    assert s[11..19] == s[11..16] + [s[16]] + s[17..19];
    assert Pad(0, 2) == "00";
  }

  /** An instant printed as a date followed by `T00:00:00Z` is that date's midnight. */
  lemma MidnightReadBack(date: string, t: Time)
    requires Format(t) == date + "T00:00:00Z"
    ensures DateKey(t) == date
    ensures t.hour == 0 && t.minute == 0 && t.second == 0
  {
    MidnightText(date);
    assert DigitsValue("00") == 0;
    ReadBack(date, "00:00", "00", t);
    ReadMidnight(t);
  }

  lemma MidnightText(date: string)
    ensures date + "T00:00:00Z" == date + "T" + "00:00" + ":" + "00" + "Z"
  {
  }

  /** A clock text of `00:00` is midnight. */
  lemma ReadMidnight(t: Time)
    requires ClockKey(t) == "00:00"
    ensures t.hour == 0 && t.minute == 0
  {
    assert Pow10(2) == 100;
    assert Pad(t.hour, 2) == ClockKey(t)[..2] == "00";
    assert Pad(t.minute, 2) == ClockKey(t)[3..] == "00";
    PadThenRead(t.hour, 2);
    PadThenRead(t.minute, 2);
  }

  /** Midnight UTC at the start of the date of `t`. */
  function Midnight(t: Time): Time
  {
    Timestamp(t.year, t.month, t.day, 0, 0, 0)
  }

  /** Every date's own key is accepted, and gives that date's midnight. */
  lemma TimeFromDateStringAccepts(t: Time)
    ensures TimeFromDateString(DateKey(t)) == Ok(Midnight(t))
  {
    var m := Midnight(t);
    assert Pow10(2) == 100;
    assert Pad(0, 2) == "00";
    assert DateKey(m) == DateKey(t);
    assert Format(m) == DateKey(t) + "T00:00:00Z";
    ParseAfterFormat(m);
  }

  /** Every whole-minute instant is accepted from its date and `HH:MM` texts. */
  lemma TimeFromDateStringAndTimeStringAccepts(t: Time)
    requires t.second == 0
    ensures TimeFromDateStringAndTimeString(DateKey(t), ClockKey(t)) == Ok(t)
  {
    assert Pow10(2) == 100;
    assert Pad(0, 2) == "00";
    assert Format(t) == DateKey(t) + "T" + ClockKey(t) + ":00Z";
    ParseAfterFormat(t);
  }

  /** Every instant is accepted from its date text and its `HH:MM:SS` text. */
  lemma TimeFromDateStringAndTimeString2Accepts(t: Time)
    ensures TimeFromDateStringAndTimeString2(DateKey(t), Format(t)[11..19]) == Ok(t)
  {
    var s := Format(t);
    FormatLayout(t);
    assert s == s[..10] + [s[10]] + s[11..19] + [s[19]];
    ParseAfterFormat(t);
  }

  /** Every instant is accepted from its RFC 3339 text less the zone. */
  lemma TimeFromStringAccepts(t: Time)
    ensures TimeFromString(Format(t)[..19]) == Ok(t)
  {
    var s := Format(t);
    FormatLayout(t);
    assert s == s[..19] + [s[19]];
    ParseAfterFormat(t);
  }

  /** 2010-01-01 08:00:00 UTC, the instant the `utils` tests read. */
  const Eight: Time := Timestamp(2010, 1, 1, 8, 0, 0)

  lemma EightTexts()
    ensures DateKey(Eight) == "2010-01-01" && ClockKey(Eight) == "08:00"
    ensures Format(Eight) == "2010-01-01T08:00:00Z"
  {
    EightDate();
    EightClock();
    EightFormat(DateKey(Eight), ClockKey(Eight));
  }

  lemma EightFormat(date: string, clock: string)
    requires date == DateKey(Eight) == "2010-01-01" && clock == ClockKey(Eight) == "08:00"
    ensures Format(Eight) == "2010-01-01T08:00:00Z"
  {
    EightFields();
    FormatJoins(Eight, date, clock, "00");
    EightJoined();
  }

  /** `Format` joins the date, the clock and the seconds. */
  lemma FormatJoins(t: Time, date: string, clock: string, seconds: string)
    requires date == DateKey(t) && clock == ClockKey(t)
    requires Pow10(2) == 100 && seconds == Pad(t.second, 2)
    ensures Format(t) == date + "T" + clock + ":" + seconds + "Z"
  {
  }

  lemma EightJoined()
    ensures "2010-01-01" + "T" + "08:00" + ":" + "00" + "Z" == "2010-01-01T08:00:00Z"
  {
  }

  lemma EightDate()
    ensures DateKey(Eight) == "2010-01-01"
  {
    assert Pow10(2) == 100;
    EightFields();
    assert DateKey(Eight) == YearKey(Eight) + "-" + Pad(1, 2) + "-" + Pad(1, 2);
  }

  lemma EightClock()
    ensures ClockKey(Eight) == "08:00"
  {
    assert Pow10(2) == 100;
    EightFields();
    assert ClockKey(Eight) == Pad(8, 2) + ":" + Pad(0, 2);
  }

  /** The padded fields of `Eight`. */
  lemma EightFields()
    ensures YearKey(Eight) == "2010"
    ensures Pad(1, 2) == "01" && Pad(8, 2) == "08" && Pad(0, 2) == "00"
  {
    assert Pow10(2) == 100 && Pow10(4) == 10000;
    assert DigitChar(0) == '0' && DigitChar(1) == '1' && DigitChar(2) == '2' && DigitChar(8) == '8';
    assert Pad(0, 0) == [];
    assert Pad(2, 1) == "2";
    assert Pad(20, 2) == "20";
    assert Pad(201, 3) == "201";
    assert Pad(2010, 4) == "2010";
    assert Pad(0, 1) == "0" && Pad(1, 1) == "1" && Pad(8, 1) == "8";
  }

  /** The texts the test of `TimeFromDateString` uses. */
  lemma TimeFromDateStringExamples()
    ensures TimeFromDateString("2010-01-01") == Ok(Timestamp(2010, 1, 1, 0, 0, 0))
    ensures TimeFromDateString("Hello World").Err?
  {
    EightTexts();
    TimeFromDateStringAccepts(Eight);
  }

  /** The texts the test of `TimeFromDateStringAndTimeString` uses. */
  lemma TimeFromDateStringAndTimeStringExamples()
    ensures TimeFromDateStringAndTimeString("2010-01-01", "08:00") == Ok(Eight)
    ensures TimeFromDateStringAndTimeString("abc", "bc").Err?
    ensures TimeFromDateStringAndTimeString("2010-01-01", "bc").Err?
  {
    EightTexts();
    TimeFromDateStringAndTimeStringAccepts(Eight);
  }

  /** The texts the tests of `TimeFromDateStringAndTimeString2` and
      `TimeFromString` use. */
  lemma TimeFromFullClockExamples()
    ensures TimeFromDateStringAndTimeString2("2010-01-01", "08:00:00") == Ok(Eight)
    ensures TimeFromDateStringAndTimeString2("abc", "bc").Err?
    ensures TimeFromDateStringAndTimeString2("2010-01-01", "bc").Err?
    ensures TimeFromString("2010-01-01T08:00:00") == Ok(Eight)
  {
    EightTexts();
    ParseAfterFormat(Eight);
    FullClockJoined();
  }

  lemma FullClockJoined()
    ensures "2010-01-01" + "T" + "08:00:00" + "Z" == "2010-01-01T08:00:00Z"
    ensures "2010-01-01T08:00:00" + "Z" == "2010-01-01T08:00:00Z"
  {
  }

  /** `IntFromString`: `strconv.Atoi`. A decimal text in 64-bit range reads as
      the number it denotes; any other text is an error. */
  function IntFromString(number: string): (r: Result<int>)
    ensures r.Ok? <==> IsDecimal(number) && MinInt <= DecimalValue(number) <= MaxInt
    ensures r.Ok? ==> r.value == DecimalValue(number)
    ensures r.Ok? && IsCanonical(number) ==> IntToString(r.value) == number
  {
    var r := Atoi(number);
    if r.Ok? && IsCanonical(number) then ItoaAfterAtoi(number); r else r
  }

  /** The texts the test of `IntFromString` uses. */
  lemma IntFromStringExamples()
    ensures IntFromString("1") == Ok(1)
    ensures IntFromString("A").Err?
  {
    AtoiExamples();
  }

  // ---------------------------------------------------------------------------
  // Fail fast

  /** What `ErrorHandler` does with an `error`: go on, or panic with it. */
  datatype Outcome = Continue | Panic(reason: Error)

  /** `ErrorHandler(err)`: panics exactly when there is an error. */
  function ErrorHandler(err: Option<Error>): (o: Outcome)
    ensures o.Panic? <==> err.Some?
    ensures o.Panic? ==> o.reason == err.value
  {
    match err
    case None => Continue
    case Some(e) => Panic(e)
  }

  /** The `error` a Go call returns beside its result: `nil` on success. */
  function ErrorOf<T>(r: Result<T>): (err: Option<Error>)
    ensures err.Some? <==> r.Err?
  {
    if r.Err? then Some(r.error) else None
  }

  // ---------------------------------------------------------------------------
  // Durations as text

  /** The hours and minutes `IntOfMinutesToString` prints: whole hours while at
      least sixty minutes remain, the rest as minutes. */
  function HoursAndMinutes(minutes: int): (hm: (int, int))
    ensures hm.0 * 60 + hm.1 == minutes
    ensures hm.0 >= 0 && hm.1 < 60
    ensures minutes >= 0 ==> 0 <= hm.1
    ensures minutes < 60 ==> hm.0 == 0
  {
    if minutes < 0 then (0, minutes) else (minutes / 60, minutes % 60)
  }

  /** `"<H>h <M>m"`; a negative count is printed as minutes, with its sign. */
  function FormatDuration(minutes: int): (s: string)
    ensures minutes >= 0 ==> s == IntToString(minutes / 60) + "h " + IntToString(minutes % 60) + "m"
    ensures minutes < 0 ==> s == "0h " + IntToString(minutes) + "m"
  {
    var (h, m) := HoursAndMinutes(minutes);
    IntToString(h) + "h " + IntToString(m) + "m"
  }

  /** `IntOfMinutesToString`: take sixty minutes off, one hour at a time. */
  method IntOfMinutesToString(minutes: int) returns (s: string)
    ensures s == FormatDuration(minutes)
  {
    var m := minutes;
    var h := 0;
    while true
      invariant h >= 0 && h * 60 + m == minutes
      invariant minutes >= 0 ==> m >= 0
      invariant minutes < 60 ==> h == 0
      decreases m
    {
      if m < 60 {
        break;
      }
      h := h + 1;
      m := m - 60;
    }
    HoursAndMinutesUnique(minutes, h, m);
    s := IntToString(h) + "h " + IntToString(m) + "m";
  }

  /** The split into whole hours and the remaining minutes is the only one
      with the minutes below sixty (and not negative for a count that is not). */
  lemma HoursAndMinutesUnique(minutes: int, h: int, m: int)
    requires h >= 0 && h * 60 + m == minutes && m < 60
    requires minutes >= 0 ==> m >= 0
    requires minutes < 60 ==> h == 0
    ensures HoursAndMinutes(minutes) == (h, m)
  {
    if minutes >= 0 {
      var q, r := minutes / 60, minutes % 60;
      assert minutes == 60 * q + r && 0 <= r < 60;
      assert 60 * (h - q) == r - m;
    }
  }

  /** The duration texts the `utils` tests expect, and a negative difference. */
  lemma FormatDurationExamples()
    ensures FormatDuration(0) == "0h 0m"
    ensures FormatDuration(60) == "1h 0m"
    ensures FormatDuration(30) == "0h 30m"
    ensures FormatDuration(125) == "2h 5m"
    ensures FormatDuration(-30) == "0h -30m"
  {
    assert IntToString(0) == "0" && IntToString(1) == "1" && IntToString(2) == "2" && IntToString(5) == "5";
    assert IntToString(30) == "30" && IntToString(-30) == "-30";
  }

  // ---------------------------------------------------------------------------
  // Grouping events by period

  /** `BuildListOf(layout, items)`: each key that the start of some event prints
      under `layout`, once, in order of first appearance. */
  function BuildListOf(layout: Layout, items: seq<Event>): (keys: seq<string>)
    ensures forall i, j | 0 <= i < j < |keys| :: keys[i] != keys[j]
    ensures forall e | e in items :: Key(layout, e.start) in keys
    ensures forall k | k in keys :: exists e | e in items :: Key(layout, e.start) == k
  {
    if items == [] then []
    else
      var rest := BuildListOf(layout, items[..|items| - 1]);
      var k := Key(layout, items[|items| - 1].start);
      assert items == items[..|items| - 1] + [items[|items| - 1]];
      if k in rest then rest else rest + [k]
  }

  /** `FilterEventsFrom(layout, items, key)`: the events whose start prints as
      `key`, each as often as in `items`, in their order. */
  function FilterEventsFrom(layout: Layout, items: seq<Event>, key: string): (r: seq<Event>)
    ensures forall e :: multiset(r)[e] == if Key(layout, e.start) == key then multiset(items)[e] else 0
  {
    if items == [] then []
    else
      var last := items[|items| - 1];
      assert items == items[..|items| - 1] + [last];
      FilterEventsFrom(layout, items[..|items| - 1], key) + (if Key(layout, last.start) == key then [last] else [])
  }

  /** The minutes an event covers: `End.Sub(Start)`, an off day 0, an interval
      that ends before it starts a negative number. */
  function EventMinutes(e: Event): int
  {
    MinutesBetween(e.start, e.end)
  }

  /** `CalculateTotal(items)`: the sum of the minutes of the events. */
  function CalculateTotal(items: seq<Event>): int
  {
    if items == [] then 0 else CalculateTotal(items[..|items| - 1]) + EventMinutes(items[|items| - 1])
  }

  /** A day off starts and ends at the same instant, so it adds no minutes. */
  lemma OffAddsNoMinutes(items: seq<Event>, id: nat, date: Time)
    ensures CalculateTotal(items + [Event(id, date, date, false, true)]) == CalculateTotal(items)
  {
    TotalStep(items, Event(id, date, date, false, true));
  }

  /** On one date and in whole minutes, an event counts the difference of its
      clock readings: negative when it ends before it starts. */
  lemma SameDayEventMinutes(e: Event)
    requires DateKey(e.start) == DateKey(e.end) && e.start.second == 0 && e.end.second == 0
    ensures EventMinutes(e) == (e.end.hour * 60 + e.end.minute) - (e.start.hour * 60 + e.start.minute)
  {
    DateKeySameDate(e.start, e.end);
    SameDayMinutes(e.start, e.end);
  }

  /** An interval that ends before it starts is kept as it is, not clamped: it
      counts the minutes of the reversed interval, negated, against the total. */
  lemma ReversedIntervalCountsNegative(items: seq<Event>, e: Event)
    requires Before(e.end, e.start)
    ensures EventMinutes(e) == -MinutesBetween(e.end, e.start) <= 0
    ensures CalculateTotal(items + [e]) == CalculateTotal(items) - MinutesBetween(e.end, e.start)
  {
    SecondOfIsChronological(e.end, e.start);
    TotalStep(items, e);
  }

  /** `IsDayExcluded(items)`: some event of the day is marked excluded. */
  predicate IsDayExcluded(items: seq<Event>)
    ensures IsDayExcluded(items) <==> exists i | 0 <= i < |items| :: items[i].excluded
  {
    if items == [] then false
    else
      assert forall i | 0 <= i < |items| - 1 :: items[..|items| - 1][i] == items[i];
      IsDayExcluded(items[..|items| - 1]) || items[|items| - 1].excluded
  }

  /** Among `days`, the number that no event of `items` excludes. */
  function CountIncludedDays(days: seq<string>, items: seq<Event>): (n: nat)
    ensures n <= |days|
  {
    if days == [] then 0
    else
      CountIncludedDays(days[..|days| - 1], items)
      + (if IsDayExcluded(FilterEventsFrom(DateLayout, items, days[|days| - 1])) then 0 else 1)
  }

  /** Some event of `items` on date `day` is excluded. */
  predicate DayHasExclusion(items: seq<Event>, day: string)
  {
    exists e | e in items :: DateKey(e.start) == day && e.excluded
  }

  /** The dates some event falls on and no event excludes. */
  function IncludedDates(items: seq<Event>): set<string>
  {
    set e | e in items && !DayHasExclusion(items, DateKey(e.start)) :: DateKey(e.start)
  }

  /** `CountDaysNotExcluded(items)`: the number of dates among the events on
      which no event is excluded. */
  function CountDaysNotExcluded(items: seq<Event>): (n: nat)
    ensures n <= |BuildListOf(DateLayout, items)|
  {
    CountIncludedDays(BuildListOf(DateLayout, items), items)
  }

  /** The days counted are exactly the dates some event falls on and no event
      excludes. */
  lemma CountDaysNotExcludedMeaning(items: seq<Event>)
    ensures CountDaysNotExcluded(items) == |IncludedDates(items)|
  {
    var days := BuildListOf(DateLayout, items);
    CountIncludedDaysIsSize(days, items);
    IncludedDatesOfKeys(items);
  }

  /** Over distinct dates, the count is the number of them that no event excludes. */
  lemma {:induction false} CountIncludedDaysIsSize(days: seq<string>, items: seq<Event>)
    requires Distinct(days)
    ensures CountIncludedDays(days, items) == |IncludedAmong(days, items)|
  {
    if days != [] {
      var init, last := days[..|days| - 1], days[|days| - 1];
      assert days == init + [last];
      assert Distinct(init);
      assert last !in init;
      CountIncludedDaysIsSize(init, items);
      CountIncludedDaysStep(days, items);
      IncludedAmongStep(init, last, items);
    }
  }

  /** The dates among `days` that no event of `items` excludes. */
  function IncludedAmong(days: seq<string>, items: seq<Event>): set<string>
  {
    set k | k in days && !DayHasExclusion(items, k)
  }

  lemma CountIncludedDaysStep(days: seq<string>, items: seq<Event>)
    requires days != []
    ensures CountIncludedDays(days, items)
         == CountIncludedDays(days[..|days| - 1], items) + (if DayHasExclusion(items, days[|days| - 1]) then 0 else 1)
  {
    GroupExcluded(items, days[|days| - 1]);
  }

  lemma IncludedAmongStep(init: seq<string>, last: string, items: seq<Event>)
    ensures IncludedAmong(init + [last], items)
         == IncludedAmong(init, items) + (if DayHasExclusion(items, last) then {} else {last})
  {
  }

  /** The included dates among the keys of `BuildListOf` are the included dates. */
  lemma IncludedDatesOfKeys(items: seq<Event>)
    ensures IncludedAmong(BuildListOf(DateLayout, items), items) == IncludedDates(items)
  {
    var keys := BuildListOf(DateLayout, items);
    var left := IncludedAmong(keys, items);
    forall k | k in left
      ensures k in IncludedDates(items)
    {
      var e :| e in items && Key(DateLayout, e.start) == k;
      assert DateKey(e.start) == k;
    }
    forall k | k in IncludedDates(items)
      ensures k in left
    {
      var e :| e in items && !DayHasExclusion(items, DateKey(e.start)) && DateKey(e.start) == k;
      assert Key(DateLayout, e.start) in keys;
    }
  }

  // ---------------------------------------------------------------------------
  // What the grouping helpers preserve

  /** The per-period event lists, one after the other, in the order of `keys`. */
  function Regroup(layout: Layout, items: seq<Event>, keys: seq<string>): seq<Event>
  {
    if keys == [] then []
    else Regroup(layout, items, keys[..|keys| - 1]) + FilterEventsFrom(layout, items, keys[|keys| - 1])
  }

  predicate Distinct(keys: seq<string>)
  {
    forall i, j | 0 <= i < j < |keys| :: keys[i] != keys[j]
  }

  /** Over distinct keys, an event occurs in the regrouped lists exactly as often
      as in `items` if its key is among them, and not at all otherwise. */
  lemma {:induction false} RegroupCounts(layout: Layout, items: seq<Event>, keys: seq<string>, e: Event)
    requires Distinct(keys)
    ensures multiset(Regroup(layout, items, keys))[e] == if Key(layout, e.start) in keys then multiset(items)[e] else 0
  {
    if keys != [] {
      var init, last := keys[..|keys| - 1], keys[|keys| - 1];
      var k := Key(layout, e.start);
      assert keys == init + [last];
      assert k in keys <==> k in init || k == last;
      assert Distinct(init);
      RegroupCounts(layout, items, init, e);
      var front, group := Regroup(layout, items, init), FilterEventsFrom(layout, items, last);
      assert multiset(front + group)[e] == multiset(front)[e] + multiset(group)[e];
      assert multiset(group)[e] == if k == last then multiset(items)[e] else 0;
      assert k == last ==> k !in init;
    }
  }

  /** Grouping by period loses no event and counts none twice: the groups that
      `FilterEventsFrom` makes for the keys of `BuildListOf` hold, together,
      exactly the events of `items`. */
  lemma NoEventLostOrDuplicated(layout: Layout, items: seq<Event>)
    ensures multiset(Regroup(layout, items, BuildListOf(layout, items))) == multiset(items)
  {
    var keys := BuildListOf(layout, items);
    forall e
      ensures multiset(Regroup(layout, items, keys))[e] == multiset(items)[e]
    {
      RegroupCounts(layout, items, keys, e);
    }
  }

  /** `CalculateTotal` adds up over concatenation. */
  lemma {:induction false} TotalOfConcat(a: seq<Event>, b: seq<Event>)
    ensures CalculateTotal(a + b) == CalculateTotal(a) + CalculateTotal(b)
  {
    if b == [] {
      assert a + b == a;
    } else {
      var init := b[..|b| - 1];
      TotalOfConcat(a, init);
      assert (a + b)[..|a + b| - 1] == a + init;
    }
  }

  /** The sum of the period totals over `keys`. */
  function TotalOverKeys(layout: Layout, items: seq<Event>, keys: seq<string>): int
  {
    if keys == [] then 0
    else TotalOverKeys(layout, items, keys[..|keys| - 1]) + CalculateTotal(FilterEventsFrom(layout, items, keys[|keys| - 1]))
  }

  /** The period totals over distinct keys add up to the total of the regrouped
      events. */
  lemma {:induction false} TotalOfRegroup(layout: Layout, items: seq<Event>, keys: seq<string>)
    ensures CalculateTotal(Regroup(layout, items, keys)) == TotalOverKeys(layout, items, keys)
  {
    if keys != [] {
      var init := keys[..|keys| - 1];
      TotalOfRegroup(layout, items, init);
      TotalOfConcat(Regroup(layout, items, init), FilterEventsFrom(layout, items, keys[|keys| - 1]));
    }
  }

  /** Appending an event appends it to its own group and to no other. */
  lemma FilterStep(layout: Layout, items: seq<Event>, x: Event, key: string)
    ensures FilterEventsFrom(layout, items + [x], key)
         == FilterEventsFrom(layout, items, key) + (if Key(layout, x.start) == key then [x] else [])
  {
    assert (items + [x])[..|items|] == items;
  }

  lemma TotalStep(items: seq<Event>, x: Event)
    ensures CalculateTotal(items + [x]) == CalculateTotal(items) + EventMinutes(x)
  {
    assert (items + [x])[..|items|] == items;
  }

  /** One more event changes exactly one period total, by its own minutes. */
  lemma {:induction false} TotalOverKeysStep(layout: Layout, items: seq<Event>, x: Event, keys: seq<string>)
    requires Distinct(keys)
    ensures TotalOverKeys(layout, items + [x], keys)
         == TotalOverKeys(layout, items, keys) + (if Key(layout, x.start) in keys then EventMinutes(x) else 0)
  {
    if keys != [] {
      var init, last := keys[..|keys| - 1], keys[|keys| - 1];
      assert Distinct(init);
      TotalOverKeysStep(layout, items, x, init);
      FilterStep(layout, items, x, last);
      var before := FilterEventsFrom(layout, items, last);
      var after := FilterEventsFrom(layout, items + [x], last);
      var kx := Key(layout, x.start);
      assert TotalOverKeys(layout, items + [x], keys) == TotalOverKeys(layout, items + [x], init) + CalculateTotal(after);
      assert TotalOverKeys(layout, items, keys) == TotalOverKeys(layout, items, init) + CalculateTotal(before);
      if kx == last {
        TotalStep(before, x);
        assert kx !in init;
        assert kx in keys;
      } else {
        assert after == before;
        assert kx in keys <==> kx in init;
      }
    }
  }

  /** The per-period totals add up to the total of all events, whenever every
      event's period is among the distinct keys. */
  lemma {:induction false} TotalSplitsOverKeys(layout: Layout, items: seq<Event>, keys: seq<string>)
    requires Distinct(keys)
    requires forall e | e in items :: Key(layout, e.start) in keys
    ensures TotalOverKeys(layout, items, keys) == CalculateTotal(items)
  {
    if items == [] {
      TotalOverKeysEmpty(layout, keys);
    } else {
      var init, x := items[..|items| - 1], items[|items| - 1];
      assert items == init + [x];
      TotalSplitsOverKeys(layout, init, keys);
      TotalOverKeysStep(layout, init, x, keys);
    }
  }

  lemma {:induction false} TotalOverKeysEmpty(layout: Layout, keys: seq<string>)
    ensures TotalOverKeys(layout, [], keys) == 0
  {
    if keys != [] {
      TotalOverKeysEmpty(layout, keys[..|keys| - 1]);
    }
  }

  /** The year (or date) totals of a summary add up to the total of all events. */
  lemma TotalSplitsByKey(layout: Layout, items: seq<Event>)
    ensures TotalOverKeys(layout, items, BuildListOf(layout, items)) == CalculateTotal(items)
  {
    TotalSplitsOverKeys(layout, items, BuildListOf(layout, items));
  }

  /** When every event prints as the same key, that key is the only period and
      its group is all the events. */
  lemma {:induction false} OnePeriod(layout: Layout, items: seq<Event>, key: string)
    requires items != [] && forall e | e in items :: Key(layout, e.start) == key
    ensures BuildListOf(layout, items) == [key]
    ensures FilterEventsFrom(layout, items, key) == items
  {
    var init, last := items[..|items| - 1], items[|items| - 1];
    assert items == init + [last];
    assert last in items;
    if init != [] {
      assert forall e | e in init :: e in items;
      OnePeriod(layout, init, key);
    }
  }

  /** An event belongs to the group of its own key. */
  lemma InOwnGroup(layout: Layout, items: seq<Event>, key: string, e: Event)
    requires e in FilterEventsFrom(layout, items, key)
    ensures e in items && Key(layout, e.start) == key
  {
    assert multiset(FilterEventsFrom(layout, items, key))[e] > 0;
  }

  /** A day's group holds an excluded event exactly when some event of that
      day is excluded. */
  lemma GroupExcluded(items: seq<Event>, day: string)
    ensures IsDayExcluded(FilterEventsFrom(DateLayout, items, day))
      <==> exists e | e in items :: DateKey(e.start) == day && e.excluded
  {
    var events := FilterEventsFrom(DateLayout, items, day);
    if e :| e in items && DateKey(e.start) == day && e.excluded {
      assert Key(DateLayout, e.start) == day;
      assert multiset(events)[e] == multiset(items)[e];
      assert e in multiset(events);
      assert e in events;
      var i :| 0 <= i < |events| && events[i] == e;
    }
    if IsDayExcluded(events) {
      var i :| 0 <= i < |events| && events[i].excluded;
      InOwnGroup(DateLayout, items, day, events[i]);
      assert Key(DateLayout, events[i].start) == DateKey(events[i].start);
    }
  }

  /** With no excluded event, every date counts. */
  lemma {:induction false} NoExclusionCountsEveryDay(days: seq<string>, items: seq<Event>)
    requires forall e | e in items :: !e.excluded
    ensures CountIncludedDays(days, items) == |days|
  {
    if days != [] {
      NoExclusionCountsEveryDay(days[..|days| - 1], items);
      var group := FilterEventsFrom(DateLayout, items, days[|days| - 1]);
      forall i | 0 <= i < |group|
        ensures !group[i].excluded
      {
        InOwnGroup(DateLayout, items, days[|days| - 1], group[i]);
      }
    }
  }

  /** With every event excluded, no date counts. */
  lemma {:induction false} AllExcludedCountsNoDay(days: seq<string>, items: seq<Event>)
    requires forall e | e in items :: e.excluded
    requires forall k | k in days :: exists e | e in items :: DateKey(e.start) == k
    ensures CountIncludedDays(days, items) == 0
  {
    if days != [] {
      var init, last := days[..|days| - 1], days[|days| - 1];
      forall k | k in init
        ensures exists e | e in items :: DateKey(e.start) == k
      {
        assert k in days;
      }
      AllExcludedCountsNoDay(init, items);
      assert last in days;
      var e :| e in items && DateKey(e.start) == last;
      var group := FilterEventsFrom(DateLayout, items, last);
      assert multiset(group)[e] == multiset(items)[e];
      assert e in multiset(group);
      assert e in group;
      var i :| 0 <= i < |group| && group[i] == e;
      assert IsDayExcluded(group);
    }
  }

  /** The number of events that are not excluded. */
  function IncludedEvents(items: seq<Event>): nat
  {
    if items == [] then 0 else IncludedEvents(items[..|items| - 1]) + (if items[|items| - 1].excluded then 0 else 1)
  }

  predicate DistinctDates(items: seq<Event>)
  {
    forall i, j | 0 <= i < j < |items| :: DateKey(items[i].start) != DateKey(items[j].start)
  }

  /** A date no event of `items` falls on has an empty group. */
  lemma NoGroupWithoutEvent(items: seq<Event>, key: string)
    requires forall e | e in items :: DateKey(e.start) != key
    ensures FilterEventsFrom(DateLayout, items, key) == []
  {
    var group := FilterEventsFrom(DateLayout, items, key);
    if group != [] {
      assert false;
    }
  }

  /** An event whose date is not among `days` does not change their count. */
  lemma {:induction false} CountIgnoresOtherDates(days: seq<string>, items: seq<Event>, x: Event)
    requires DateKey(x.start) !in days
    ensures CountIncludedDays(days, items + [x]) == CountIncludedDays(days, items)
  {
    if days != [] {
      var last := days[|days| - 1];
      CountIgnoresOtherDates(days[..|days| - 1], items, x);
      assert (items + [x])[..|items|] == items;
      assert FilterEventsFrom(DateLayout, items + [x], last) == FilterEventsFrom(DateLayout, items, last);
    }
  }

  /** When no two events share a date, the days that count are the events that
      are not excluded. */
  lemma {:induction false} DistinctDatesCount(items: seq<Event>)
    requires DistinctDates(items)
    ensures CountDaysNotExcluded(items) == IncludedEvents(items)
  {
    if items != [] {
      var init, x := items[..|items| - 1], items[|items| - 1];
      var k := DateKey(x.start);
      assert items == init + [x];
      assert DistinctDates(init);
      DistinctDatesCount(init);
      LastDateIsNew(items);
      CountNewDate(init, x);
    }
  }

  /** An event on a new date adds one counted day unless it is excluded. */
  lemma CountNewDate(init: seq<Event>, x: Event)
    requires forall e | e in init :: DateKey(e.start) != DateKey(x.start)
    ensures CountDaysNotExcluded(init + [x]) == CountDaysNotExcluded(init) + (if x.excluded then 0 else 1)
  {
    var items, k := init + [x], DateKey(x.start);
    var days := BuildListOf(DateLayout, init);
    assert (days + [k])[..|days|] == days;
    assert IsDayExcluded([x]) == x.excluded by { assert [x][..0] == []; }
    NewDate(init, x);
    CountIgnoresOtherDates(days, init, x);
    var here := if x.excluded then 0 else 1;
    assert CountIncludedDays(days + [k], items)
        == CountIncludedDays(days, items) + (if IsDayExcluded(FilterEventsFrom(DateLayout, items, k)) then 0 else 1);
    assert CountDaysNotExcluded(items) == CountIncludedDays(days + [k], items);
  }

  lemma LastDateIsNew(items: seq<Event>)
    requires items != [] && DistinctDates(items)
    ensures forall e | e in items[..|items| - 1] :: DateKey(e.start) != DateKey(items[|items| - 1].start)
  {
    var init := items[..|items| - 1];
    forall e | e in init
      ensures DateKey(e.start) != DateKey(items[|items| - 1].start)
    {
      var i :| 0 <= i < |init| && init[i] == e;
      assert items[i] == e;
    }
  }

  /** An event on a date no earlier event has adds that date at the end of the
      list of dates, with itself as the only event of that date. */
  lemma NewDate(items: seq<Event>, x: Event)
    requires forall e | e in items :: DateKey(e.start) != DateKey(x.start)
    ensures DateKey(x.start) !in BuildListOf(DateLayout, items)
    ensures BuildListOf(DateLayout, items + [x]) == BuildListOf(DateLayout, items) + [DateKey(x.start)]
    ensures FilterEventsFrom(DateLayout, items + [x], DateKey(x.start)) == [x]
  {
    var k := DateKey(x.start);
    assert (items + [x])[..|items|] == items;
    assert k !in BuildListOf(DateLayout, items);
    NoGroupWithoutEvent(items, k);
    FilterStep(DateLayout, items, x, k);
  }

  /** Five events on five different dates, excluded, included, included,
      included, excluded: three days count. */
  lemma FiveDaysExample(items: seq<Event>)
    requires |items| == 5 && DistinctDates(items)
    requires items[0].excluded && !items[1].excluded && !items[2].excluded
    requires !items[3].excluded && items[4].excluded
    ensures CountDaysNotExcluded(items) == 3
  {
    DistinctDatesCount(items);
    ThreeOfFiveIncluded(items);
  }

  lemma ThreeOfFiveIncluded(items: seq<Event>)
    requires |items| == 5
    requires items[0].excluded && !items[1].excluded && !items[2].excluded
    requires !items[3].excluded && items[4].excluded
    ensures IncludedEvents(items) == 3
  {
    var p1, p2, p3, p4 := items[..1], items[..2], items[..3], items[..4];
    assert p1[..0] == [] && p2[..1] == p1 && p3[..2] == p2 && p4[..3] == p3 && items[..4] == p4;
    assert IncludedEvents(p1) == 0;
    assert IncludedEvents(p2) == 1;
    assert IncludedEvents(p3) == 2;
    assert IncludedEvents(p4) == 3;
  }
}
