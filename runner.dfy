/** The runner: the settings lookup it fails fast on, the event and settings
    stores it writes through, backup and restore of both, and the two summaries.
    The repositories become fields of class `Runner`; table rendering, JSON and
    files are left out. */
module Runner {
  import opened Results
  import opened Decimal
  import opened Civil
  import opened TimeFormat
  import opened Models
  import BackupModels
  import opened Utils
  import opened StableSort
  import Ordering

  // ---------------------------------------------------------------------------
  // The settings store

  /** No two settings share a key. `AddOrUpdate` keeps this, so the store
      always satisfies it. */
  predicate UniqueKeys(settings: seq<Setting>)
  {
    forall i, j | 0 <= i < j < |settings| :: settings[i].key != settings[j].key
  }

  predicate HasKey(settings: seq<Setting>, key: string)
  {
    exists i | 0 <= i < |settings| :: settings[i].key == key
  }

  /** The number of settings with key `key` (the `Count` in `Exist`). */
  function CountKey(settings: seq<Setting>, key: string): (n: nat)
    ensures n == 0 <==> !HasKey(settings, key)
  {
    if settings == [] then 0
    else
      assert forall i | 0 < i < |settings| :: settings[1..][i - 1] == settings[i];
      (if settings[0].key == key then 1 else 0) + CountKey(settings[1..], key)
  }

  /** With unique keys a present key is counted once. */
  lemma {:induction false} CountUnique(settings: seq<Setting>, key: string)
    requires UniqueKeys(settings)
    ensures CountKey(settings, key) == if HasKey(settings, key) then 1 else 0
  {
    if settings != [] {
      var rest := settings[1..];
      assert UniqueKeys(rest);
      CountUnique(rest, key);
      if settings[0].key == key {
        assert !HasKey(rest, key);
      }
    }
  }

  /** `GetOne(key)`: the first setting with that key, or not found. */
  function GetOne(settings: seq<Setting>, key: string): (r: Result<Setting>)
    ensures r.Ok? <==> HasKey(settings, key)
    ensures r.Ok? ==> exists i | 0 <= i < |settings| :: settings[i] == r.value
                        && r.value.key == key && forall j | 0 <= j < i :: settings[j].key != key
    ensures r.Err? ==> r.error == NotFound(key)
  {
    if settings == [] then Err(NotFound(key))
    else if settings[0].key == key then Ok(settings[0])
    else
      var r := GetOne(settings[1..], key);
      assert forall i | 0 < i < |settings| :: settings[1..][i - 1] == settings[i];
      assert r.Ok? ==> exists i | 0 < i < |settings| :: settings[i] == r.value;
      r
  }

  /** With unique keys, the lookup finds the stored setting. */
  lemma GetOneUnique(settings: seq<Setting>, key: string, value: string)
    requires UniqueKeys(settings) && Setting(key, value) in settings
    ensures GetOne(settings, key) == Ok(Setting(key, value))
  {
    var k :| 0 <= k < |settings| && settings[k] == Setting(key, value);
    assert HasKey(settings, key);
  }

  /** `AddOrUpdate(key, value)`: when exactly one setting has the key
      (`Exist`), its value is replaced; otherwise a setting is appended. */
  function AddOrUpdate(settings: seq<Setting>, key: string, value: string): (r: seq<Setting>)
    ensures HasKey(r, key)
    ensures |r| >= |settings|
    ensures forall i | 0 <= i < |settings| && settings[i].key != key :: r[i] == settings[i]
  {
    if CountKey(settings, key) == 1 then
      var r := seq(|settings|, i requires 0 <= i < |settings| =>
        if settings[i].key == key then Setting(key, value) else settings[i]);
      assert forall k | 0 <= k < |settings| && settings[k].key == key :: r[k].key == key;
      r
    else
      assert (settings + [Setting(key, value)])[|settings|].key == key;
      settings + [Setting(key, value)]
  }

  /** The keys after `AddOrUpdate`: the old ones, and `key` at the end if it
      was not there. */
  lemma AddOrUpdateKeys(settings: seq<Setting>, key: string, value: string)
    requires UniqueKeys(settings)
    ensures var r := AddOrUpdate(settings, key, value);
      |r| == if HasKey(settings, key) then |settings| else |settings| + 1
    ensures var r := AddOrUpdate(settings, key, value);
      forall i | 0 <= i < |r| :: r[i].key == (if i < |settings| then settings[i].key else key)
  {
    CountUnique(settings, key);
  }

  /** `AddOrUpdate` keeps keys unique. */
  lemma AddOrUpdateUnique(settings: seq<Setting>, key: string, value: string)
    requires UniqueKeys(settings)
    ensures UniqueKeys(AddOrUpdate(settings, key, value))
  {
    AddOrUpdateKeys(settings, key, value);
  }

  /** After `AddOrUpdate` the key reads back the new value. */
  lemma AddOrUpdateThenGetOne(settings: seq<Setting>, key: string, value: string)
    requires UniqueKeys(settings)
    ensures GetOne(AddOrUpdate(settings, key, value), key) == Ok(Setting(key, value))
  {
    var r := AddOrUpdate(settings, key, value);
    AddOrUpdateUnique(settings, key, value);
    CountUnique(settings, key);
    if HasKey(settings, key) {
      var k :| 0 <= k < |settings| && settings[k].key == key;
      assert r[k] == Setting(key, value);
    } else {
      assert r[|settings|] == Setting(key, value);
    }
    GetOneUnique(r, key, value);
  }

  /** `AddOrUpdate` leaves what every other key reads unchanged. */
  lemma AddOrUpdateKeepsOthers(settings: seq<Setting>, key: string, value: string, other: string)
    requires UniqueKeys(settings) && other != key
    ensures GetOne(AddOrUpdate(settings, key, value), other) == GetOne(settings, other)
  {
    var r := AddOrUpdate(settings, key, value);
    AddOrUpdateKeys(settings, key, value);
    AddOrUpdateUnique(settings, key, value);
    if HasKey(settings, other) {
      var s := GetOne(settings, other).value;
      var k :| 0 <= k < |settings| && settings[k] == s;
      assert r[k] == s;
      GetOneUnique(r, other, s.value);
    } else {
      assert !HasKey(r, other);
    }
  }

  /** The settings after `AddOrUpdate` of each of `document`'s settings, in order. */
  function AddAll(settings: seq<Setting>, document: seq<BackupModels.Setting>): seq<Setting>
  {
    if document == [] then settings
    else
      var last := document[|document| - 1];
      AddOrUpdate(AddAll(settings, document[..|document| - 1]), last.key, last.value)
  }

  /** Adding settings one at a time keeps keys unique. */
  lemma {:induction false} AddAllUnique(settings: seq<Setting>, document: seq<BackupModels.Setting>)
    requires UniqueKeys(settings)
    ensures UniqueKeys(AddAll(settings, document))
  {
    if document != [] {
      var last := document[|document| - 1];
      AddAllUnique(settings, document[..|document| - 1]);
      AddOrUpdateUnique(AddAll(settings, document[..|document| - 1]), last.key, last.value);
    }
  }

  /** A setting as the backup document writes it. */
  function BackupSetting(s: Setting): BackupModels.Setting
  {
    BackupModels.Setting(s.key, s.value)
  }

  /** An event as the backup document writes it: everything but its ID. */
  function BackupEvent(e: Event): BackupModels.Event
  {
    BackupModels.Event(e.start, e.end, e.excluded, e.off)
  }

  /** Restoring backed-up settings into an empty store gives back the store:
      each key is new when it is added, so each is appended in turn. */
  lemma {:induction false} RestoreUndoesBackup(settings: seq<Setting>, document: seq<BackupModels.Setting>)
    requires UniqueKeys(settings)
    requires |document| == |settings|
    requires forall i | 0 <= i < |settings| :: document[i] == BackupSetting(settings[i])
    ensures AddAll([], document) == settings
  {
    if settings != [] {
      var init, last := settings[..|settings| - 1], settings[|settings| - 1];
      assert UniqueKeys(init);
      RestoreUndoesBackup(init, document[..|document| - 1]);
      assert !HasKey(init, last.key);
      CountUnique(init, last.key);
      assert settings == init + [last];
    }
  }

  // ---------------------------------------------------------------------------
  // settingToInt and getSettings

  const WorkdayKey: string := "workday"
  const BreakKey: string := "break"

  /** `settingToInt(name)`: look the setting up and parse its value; a missing
      setting or a value that is not a decimal integer is an error, never a
      default. */
  function SettingToInt(settings: seq<Setting>, name: string): (r: Result<int>)
    ensures !HasKey(settings, name) ==> r == Err(NotFound(name))
    ensures r.Ok? ==> exists s | s in settings :: s.key == name && Atoi(s.value) == r
    ensures r.Ok? ==> MinInt <= r.value <= MaxInt
  {
    var setting :- GetOne(settings, name);
    Atoi(setting.value)
  }

  /** `settingToInt` hands the lookup's error and then the parse's error to
      `ErrorHandler`: the result is an error exactly when one of those calls
      panics, and it is the error that call panics with. */
  lemma SettingToIntFailsFast(settings: seq<Setting>, name: string)
    ensures var lookup := ErrorHandler(ErrorOf(GetOne(settings, name)));
      var parse := if GetOne(settings, name).Ok? then ErrorHandler(ErrorOf(Atoi(GetOne(settings, name).value.value))) else Continue;
      && (SettingToInt(settings, name).Err? <==> lookup.Panic? || parse.Panic?)
      && (lookup.Panic? ==> SettingToInt(settings, name) == Err(lookup.reason))
      && (parse.Panic? ==> SettingToInt(settings, name) == Err(parse.reason))
  {
  }

  /** In a store with unique keys, the value read is the stored text parsed. */
  lemma SettingToIntOfStored(settings: seq<Setting>, name: string, value: string)
    requires UniqueKeys(settings) && Setting(name, value) in settings
    ensures SettingToInt(settings, name) == Atoi(value)
  {
    GetOneUnique(settings, name, value);
  }

  /** A number stored with `SettingsSet` reads back as that number. */
  lemma SetThenRead(settings: seq<Setting>, name: string, n: int)
    requires UniqueKeys(settings) && MinInt <= n <= MaxInt
    ensures SettingToInt(AddOrUpdate(settings, name, IntToString(n)), name) == Ok(n)
  {
    AddOrUpdateThenGetOne(settings, name, IntToString(n));
    AtoiAfterItoa(n);
  }

  /** `getSettings()`: the workday, then the break, failing on the first that
      fails. */
  function GetSettings(settings: seq<Setting>): (r: Result<(int, int)>)
    ensures r.Ok? <==> SettingToInt(settings, WorkdayKey).Ok? && SettingToInt(settings, BreakKey).Ok?
    ensures r.Ok? ==> r.value == (SettingToInt(settings, WorkdayKey).value, SettingToInt(settings, BreakKey).value)
    ensures r.Err? ==> r.error == if SettingToInt(settings, WorkdayKey).Err? then SettingToInt(settings, WorkdayKey).error
                                  else SettingToInt(settings, BreakKey).error
  {
    var workday :- SettingToInt(settings, WorkdayKey);
    var breaktime :- SettingToInt(settings, BreakKey);
    Ok((workday, breaktime))
  }

  /** Both settings stored as numbers: both are read back. */
  lemma GetSettingsOfStored(settings: seq<Setting>, workday: int, breaktime: int)
    requires UniqueKeys(settings)
    requires Setting(WorkdayKey, IntToString(workday)) in settings && MinInt <= workday <= MaxInt
    requires Setting(BreakKey, IntToString(breaktime)) in settings && MinInt <= breaktime <= MaxInt
    ensures GetSettings(settings) == Ok((workday, breaktime))
  {
    SettingToIntOfStored(settings, WorkdayKey, IntToString(workday));
    SettingToIntOfStored(settings, BreakKey, IntToString(breaktime));
    AtoiAfterItoa(workday);
    AtoiAfterItoa(breaktime);
  }

  /** Without a workday setting, the settings cannot be read, and the error
      names the workday, even where only the break is used. */
  lemma MissingWorkdayFails(settings: seq<Setting>)
    requires !HasKey(settings, WorkdayKey)
    ensures GetSettings(settings) == Err(NotFound(WorkdayKey))
  {
  }

  // ---------------------------------------------------------------------------
  // The rows of the two summaries

  /** The figures of one year: days worked (dates with no excluded event),
      expected minutes, minutes logged less the breaks, and the difference. */
  datatype YearFigures = YearFigures(days: nat, expected: int, total: int, difference: int)

  function FiguresOfYear(items: seq<Event>, year: string, workday: int, breaktime: int): YearFigures
  {
    var events := FilterEventsFrom(YearLayout, items, year);
    var days := CountDaysNotExcluded(events);
    var total := CalculateTotal(events) - days * breaktime;
    YearFigures(days, days * workday, total, total - days * workday)
  }

  /** A year row: the year, then expected, total and difference as durations. */
  function YearRow(items: seq<Event>, year: string, workday: int, breaktime: int): Row
  {
    var f := FiguresOfYear(items, year, workday, breaktime);
    [year, FormatDuration(f.expected), FormatDuration(f.total), FormatDuration(f.difference)]
  }

  /** The rows of `years` before sorting, in their order. */
  function YearRows(items: seq<Event>, years: seq<string>, workday: int, breaktime: int): seq<Row>
  {
    RowsOf(years, YearRowOf(items, workday, breaktime))
  }

  function YearRowOf(items: seq<Event>, workday: int, breaktime: int): string -> Row
  {
    year => YearRow(items, year, workday, breaktime)
  }

  /** The dates in `year` that some event falls on and no event excludes: the
      days worked. */
  function WorkedDates(items: seq<Event>, year: string): set<string>
  {
    set e | e in items && YearKey(e.start) == year && !DayHasExclusion(items, DateKey(e.start)) :: DateKey(e.start)
  }

  /** The figures of a year, in terms of the events: the days counted are the
      dates of the year that some event falls on and none excludes; the
      expected minutes are a workday per such day; the total is the year's
      logged minutes less a break per such day; and the difference is what the
      total exceeds the expectation by. */
  lemma YearFiguresMeaning(items: seq<Event>, year: string, workday: int, breaktime: int)
    ensures var f := FiguresOfYear(items, year, workday, breaktime);
      var days := |WorkedDates(items, year)|;
      && f.days == days
      && f.expected == days * workday
      && f.total == CalculateTotal(FilterEventsFrom(YearLayout, items, year)) - days * breaktime
      && f.difference == f.total - f.expected
  {
    CountDaysNotExcludedMeaning(FilterEventsFrom(YearLayout, items, year));
    WorkedDatesOfYear(items, year);
  }

  /** The included dates of a year's events are the days worked in that year:
      an event that excludes a date of the year is itself in the year. */
  lemma WorkedDatesOfYear(items: seq<Event>, year: string)
    ensures IncludedDates(FilterEventsFrom(YearLayout, items, year)) == WorkedDates(items, year)
  {
    var group := FilterEventsFrom(YearLayout, items, year);
    forall e
      ensures e in group <==> e in items && YearKey(e.start) == year
    {
      assert multiset(group)[e] == if Key(YearLayout, e.start) == year then multiset(items)[e] else 0;
    }
    forall e | e in items && YearKey(e.start) == year
      ensures DayHasExclusion(group, DateKey(e.start)) <==> DayHasExclusion(items, DateKey(e.start))
    {
      if DayHasExclusion(items, DateKey(e.start)) {
        var x :| x in items && DateKey(x.start) == DateKey(e.start) && x.excluded;
        assert YearKey(x.start) == DateKey(x.start)[..4] == DateKey(e.start)[..4] == year;
        assert x in group;
      }
    }
  }

  /** The year totals, with their breaks added back, add up to the minutes of
      all events. */
  lemma YearTotalsAddUp(items: seq<Event>, workday: int, breaktime: int)
    ensures SumGross(items, BuildListOf(YearLayout, items), workday, breaktime) == CalculateTotal(items)
  {
    SumGrossIsTotalOverKeys(items, BuildListOf(YearLayout, items), workday, breaktime);
    TotalSplitsByKey(YearLayout, items);
  }

  /** The sum, over `years`, of each year's total with its breaks added back. */
  function SumGross(items: seq<Event>, years: seq<string>, workday: int, breaktime: int): int
  {
    if years == [] then 0
    else
      var f := FiguresOfYear(items, years[|years| - 1], workday, breaktime);
      SumGross(items, years[..|years| - 1], workday, breaktime) + f.total + f.days * breaktime
  }

  lemma {:induction false} SumGrossIsTotalOverKeys(items: seq<Event>, years: seq<string>, workday: int, breaktime: int)
    ensures SumGross(items, years, workday, breaktime) == TotalOverKeys(YearLayout, items, years)
  {
    if years != [] {
      SumGrossIsTotalOverKeys(items, years[..|years| - 1], workday, breaktime);
    }
  }

  /** One row per year among the events, each with that year's figures. */
  lemma YearRowsOnePerYear(items: seq<Event>, workday: int, breaktime: int)
    ensures var rows := YearRows(items, BuildListOf(YearLayout, items), workday, breaktime);
      forall row :: row in rows <==> exists e | e in items :: row == YearRow(items, YearKey(e.start), workday, breaktime)
    ensures DistinctKeys(YearRows(items, BuildListOf(YearLayout, items), workday, breaktime))
  {
    var years := BuildListOf(YearLayout, items);
    var rowOf := YearRowOf(items, workday, breaktime);
    RowsOfMembers(years, rowOf);
    RowsOfDistinct(years, rowOf);
    forall row
      ensures row in RowsOf(years, rowOf) <==> exists e | e in items :: row == YearRow(items, YearKey(e.start), workday, breaktime)
    {
      if row in RowsOf(years, rowOf) {
        var y :| y in years && row == rowOf(y);
        var e :| e in items && Key(YearLayout, e.start) == y;
        assert row == YearRow(items, YearKey(e.start), workday, breaktime);
      }
      if e :| e in items && row == YearRow(items, YearKey(e.start), workday, breaktime) {
        assert Key(YearLayout, e.start) == YearKey(e.start);
        assert row == rowOf(YearKey(e.start));
      }
    }
  }

  /** A day's total: its minutes, less the break unless the day is excluded. */
  function DayTotal(items: seq<Event>, day: string, breaktime: int): int
  {
    var events := FilterEventsFrom(DateLayout, items, day);
    CalculateTotal(events) - (if IsDayExcluded(events) then 0 else breaktime)
  }

  /** The break is deducted from a day exactly when none of that day's events
      is excluded. */
  lemma BreakUnlessExcluded(items: seq<Event>, day: string, breaktime: int)
    ensures var minutes := CalculateTotal(FilterEventsFrom(DateLayout, items, day));
      DayTotal(items, day, breaktime)
      == if exists e | e in items :: DateKey(e.start) == day && e.excluded then minutes else minutes - breaktime
  {
    GroupExcluded(items, day);
  }

  /** A day row: the date and its total as a duration. */
  function DayRow(items: seq<Event>, day: string, breaktime: int): Row
  {
    [day, FormatDuration(DayTotal(items, day, breaktime))]
  }

  /** The rows of the days of `days` whose total is positive, in their order. */
  function DayRows(items: seq<Event>, days: seq<string>, breaktime: int): seq<Row>
  {
    KeptRowsOf(days, HasPositiveTotal(items, breaktime), DayRowOf(items, breaktime))
  }

  function HasPositiveTotal(items: seq<Event>, breaktime: int): string -> bool
  {
    day => DayTotal(items, day, breaktime) > 0
  }

  function DayRowOf(items: seq<Event>, breaktime: int): string -> Row
  {
    day => DayRow(items, day, breaktime)
  }

  /** One row per date among the events whose total is positive, each with
      that day's total. */
  lemma DayRowsOnePerDay(items: seq<Event>, breaktime: int)
    ensures var rows := DayRows(items, BuildListOf(DateLayout, items), breaktime);
      forall row :: row in rows <==> exists e | e in items ::
        DayTotal(items, DateKey(e.start), breaktime) > 0 && row == DayRow(items, DateKey(e.start), breaktime)
  {
    DayRowsComeFromEvents(items, breaktime);
    EventsGiveDayRows(items, breaktime);
  }

  lemma DayRowsComeFromEvents(items: seq<Event>, breaktime: int)
    ensures forall row | row in DayRows(items, BuildListOf(DateLayout, items), breaktime) ::
      exists e | e in items :: DayTotal(items, DateKey(e.start), breaktime) > 0 && row == DayRow(items, DateKey(e.start), breaktime)
  {
    var days := BuildListOf(DateLayout, items);
    var keep := HasPositiveTotal(items, breaktime);
    var rowOf := DayRowOf(items, breaktime);
    assert DayRows(items, days, breaktime) == KeptRowsOf(days, keep, rowOf);
    KeptRowsOfMembers(days, keep, rowOf);
    forall row | row in KeptRowsOf(days, keep, rowOf)
      ensures exists e | e in items :: DayTotal(items, DateKey(e.start), breaktime) > 0 && row == DayRow(items, DateKey(e.start), breaktime)
    {
      var d :| d in days && keep(d) && row == rowOf(d);
      var e :| e in items && Key(DateLayout, e.start) == d;
      assert DayTotal(items, DateKey(e.start), breaktime) > 0 && row == DayRow(items, DateKey(e.start), breaktime);
    }
  }

  lemma EventsGiveDayRows(items: seq<Event>, breaktime: int)
    ensures forall e | e in items && DayTotal(items, DateKey(e.start), breaktime) > 0 ::
      DayRow(items, DateKey(e.start), breaktime) in DayRows(items, BuildListOf(DateLayout, items), breaktime)
  {
    var days := BuildListOf(DateLayout, items);
    var keep := HasPositiveTotal(items, breaktime);
    var rowOf := DayRowOf(items, breaktime);
    assert DayRows(items, days, breaktime) == KeptRowsOf(days, keep, rowOf);
    KeptRowsOfMembers(days, keep, rowOf);
    forall e | e in items && DayTotal(items, DateKey(e.start), breaktime) > 0
      ensures DayRow(items, DateKey(e.start), breaktime) in KeptRowsOf(days, keep, rowOf)
    {
      assert Key(DateLayout, e.start) == DateKey(e.start);
      assert keep(DateKey(e.start)) && DayRow(items, DateKey(e.start), breaktime) == rowOf(DateKey(e.start));
    }
  }

  /** No two day rows share a date. */
  lemma DayRowsDistinct(items: seq<Event>, breaktime: int)
    ensures DistinctKeys(DayRows(items, BuildListOf(DateLayout, items), breaktime))
  {
    var days := BuildListOf(DateLayout, items);
    KeptRowsOfMembers(days, HasPositiveTotal(items, breaktime), DayRowOf(items, breaktime));
  }

  // ---------------------------------------------------------------------------
  // Rows, one per key

  /** `rowOf` of each key, in the order of `keys`. */
  function RowsOf(keys: seq<string>, rowOf: string -> Row): seq<Row>
  {
    seq(|keys|, i requires 0 <= i < |keys| => rowOf(keys[i]))
  }

  lemma RowsOfMembers(keys: seq<string>, rowOf: string -> Row)
    ensures forall row :: row in RowsOf(keys, rowOf) <==> exists k | k in keys :: row == rowOf(k)
  {
    var rows := RowsOf(keys, rowOf);
    forall row
      ensures row in rows <==> exists k | k in keys :: row == rowOf(k)
    {
      if row in rows {
        var i :| 0 <= i < |rows| && rows[i] == row;
        assert keys[i] in keys;
      }
      if k :| k in keys && row == rowOf(k) {
        var i :| 0 <= i < |keys| && keys[i] == k;
        assert rows[i] == row;
      }
    }
  }

  /** Two orderings of the same rows have the same members. */
  lemma SameMembers(data: seq<Row>, sorted: seq<Row>)
    requires multiset(sorted) == multiset(data)
    ensures forall row :: row in sorted <==> row in data
  {
    forall row
      ensures row in sorted <==> row in data
    {
      assert row in sorted <==> row in multiset(sorted);
      assert row in data <==> row in multiset(data);
    }
  }

  lemma RowsOfStep(keys: seq<string>, rowOf: string -> Row, i: nat)
    requires i < |keys|
    ensures RowsOf(keys[..i + 1], rowOf) == RowsOf(keys[..i], rowOf) + [rowOf(keys[i])]
  {
  }

  lemma KeptRowsOfStep(keys: seq<string>, keep: string -> bool, rowOf: string -> Row, i: nat)
    requires i < |keys|
    ensures KeptRowsOf(keys[..i + 1], keep, rowOf)
         == KeptRowsOf(keys[..i], keep, rowOf) + (if keep(keys[i]) then [rowOf(keys[i])] else [])
  {
    assert keys[..i + 1][..i] == keys[..i];
  }

  /** Rows keyed by their own distinct keys have distinct first cells. */
  lemma RowsOfDistinct(keys: seq<string>, rowOf: string -> Row)
    requires Distinct(keys)
    requires forall k :: rowOf(k)[0] == k
    ensures DistinctKeys(RowsOf(keys, rowOf))
  {
  }

  /** `rowOf` of each key that `keep` accepts, in the order of `keys`. */
  function KeptRowsOf(keys: seq<string>, keep: string -> bool, rowOf: string -> Row): seq<Row>
  {
    if keys == [] then []
    else
      var last := keys[|keys| - 1];
      KeptRowsOf(keys[..|keys| - 1], keep, rowOf) + (if keep(last) then [rowOf(last)] else [])
  }

  /** The kept rows are the rows of the accepted keys; over distinct keys, no
      two share a first cell. */
  lemma KeptRowsOfMembers(keys: seq<string>, keep: string -> bool, rowOf: string -> Row)
    requires Distinct(keys)
    requires forall k :: rowOf(k)[0] == k
    ensures forall row :: (row in KeptRowsOf(keys, keep, rowOf)
      <==> exists k | k in keys :: keep(k) && row == rowOf(k))
    ensures DistinctKeys(KeptRowsOf(keys, keep, rowOf))
  {
    KeptRowsOfMembership(keys, keep, rowOf);
    KeptRowsOfDistinct(keys, keep, rowOf);
  }

  lemma {:induction false} KeptRowsOfMembership(keys: seq<string>, keep: string -> bool, rowOf: string -> Row)
    ensures forall row :: (row in KeptRowsOf(keys, keep, rowOf)
      <==> exists k | k in keys :: keep(k) && row == rowOf(k))
  {
    if keys != [] {
      var init, last := keys[..|keys| - 1], keys[|keys| - 1];
      assert keys == init + [last];
      KeptRowsOfMembership(init, keep, rowOf);
    }
  }

  lemma {:induction false} KeptRowsOfDistinct(keys: seq<string>, keep: string -> bool, rowOf: string -> Row)
    requires Distinct(keys)
    requires forall k :: rowOf(k)[0] == k
    ensures DistinctKeys(KeptRowsOf(keys, keep, rowOf))
  {
    if keys != [] {
      var init, last := keys[..|keys| - 1], keys[|keys| - 1];
      assert Distinct(init);
      KeptRowsOfDistinct(init, keep, rowOf);
      KeptRowsOfMembership(init, keep, rowOf);
      var front := KeptRowsOf(init, keep, rowOf);
      forall i | 0 <= i < |front|
        ensures front[i][0] != last
      {
        assert front[i] in front;
        var k :| k in init && keep(k) && front[i] == rowOf(k);
        var m :| 0 <= m < |init| && init[m] == k;
        assert keys[m] == k;
      }
      var rows := KeptRowsOf(keys, keep, rowOf);
      assert rows == front + (if keep(last) then [rowOf(last)] else []);
      forall i, j | 0 <= i < j < |rows|
        ensures rows[i][0] != rows[j][0]
      {
        if j >= |front| {
          assert rows[j] == rowOf(last) && rows[i] == front[i];
        }
      }
    }
  }


  // ---------------------------------------------------------------------------
  // The runner and its stores

  /** What the two repositories guarantee of what they hold: event IDs
      increase in insertion order and stay below the next one to be handed out,
      and no two settings share a key. */
  predicate StoresValid(events: seq<Event>, nextEventId: nat, settings: seq<Setting>)
  {
    && (forall i, j | 0 <= i < j < |events| :: events[i].id < events[j].id)
    && (forall i | 0 <= i < |events| :: events[i].id < nextEventId)
    && UniqueKeys(settings)
  }

  /** The runner with its two repositories: the events in insertion order with
      the next ID the database hands out, and the settings. */
  class Runner {
    var events: seq<Event>
    var nextEventId: nat
    var settings: seq<Setting>

    /** Event IDs increase in insertion order and stay below the next one;
        setting keys are unique. */
    predicate Valid()
      reads this
    {
      StoresValid(events, nextEventId, settings)
    }

    /** `New(e, s, r)`: a runner over the two repositories as they stand, which
        may already hold records; the next event gets the ID after theirs. */
    constructor (events: seq<Event>, nextEventId: nat, settings: seq<Setting>)
      requires StoresValid(events, nextEventId, settings)
      ensures this.events == events && this.nextEventId == nextEventId && this.settings == settings
      ensures Valid()
    {
      this.events := events;
      this.nextEventId := nextEventId;
      this.settings := settings;
    }

    /** `eventRepository.Add`: store a new event under the next ID. */
    method AddEvent(start: Time, end: Time, excluded: bool, off: bool)
      modifies this
      requires Valid()
      ensures events == old(events) + [Event(old(nextEventId), start, end, excluded, off)]
      ensures nextEventId == old(nextEventId) + 1
      ensures settings == old(settings)
      ensures Valid()
    {
      events := events + [Event(nextEventId, start, end, excluded, off)];
      nextEventId := nextEventId + 1;
    }

    /** `Add`: a worked interval, never a day off. */
    method Add(start: Time, end: Time, excluded: bool)
      modifies this
      requires Valid()
      ensures events == old(events) + [Event(old(nextEventId), start, end, excluded, false)]
      ensures nextEventId == old(nextEventId) + 1 && settings == old(settings)
      ensures Valid()
    {
      AddEvent(start, end, excluded, false);
    }

    /** `Off`: a day off, an event that starts and ends at `date`, not excluded. */
    method Off(date: Time)
      modifies this
      requires Valid()
      ensures events == old(events) + [Event(old(nextEventId), date, date, false, true)]
      ensures nextEventId == old(nextEventId) + 1 && settings == old(settings)
      ensures Valid()
    {
      AddEvent(date, date, false, true);
    }

    /** `SettingsSet`: add the setting or update its value. */
    method SettingsSet(key: string, value: string)
      modifies this
      requires Valid()
      ensures settings == AddOrUpdate(old(settings), key, value)
      ensures GetOne(settings, key) == Ok(Setting(key, value))
      ensures events == old(events) && nextEventId == old(nextEventId)
      ensures Valid()
    {
      AddOrUpdateUnique(settings, key, value);
      AddOrUpdateThenGetOne(settings, key, value);
      settings := AddOrUpdate(settings, key, value);
    }

    /** `Backup`: every setting (key, value) and every event (start, end,
        excluded, off), field for field and in order; nothing changes. */
    method Backup() returns (document: BackupModels.Document)
      ensures |document.settings| == |settings|
      ensures forall i | 0 <= i < |settings| :: document.settings[i] == BackupSetting(settings[i])
      ensures |document.events| == |events|
      ensures forall i | 0 <= i < |events| :: document.events[i] == BackupEvent(events[i])
    {
      var backupSettings: seq<BackupModels.Setting> := [];
      var backupEvents: seq<BackupModels.Event> := [];
      for i := 0 to |settings|
        invariant |backupSettings| == i
        invariant forall k | 0 <= k < i :: backupSettings[k] == BackupSetting(settings[k])
      {
        backupSettings := backupSettings + [BackupModels.Setting(settings[i].key, settings[i].value)];
      }
      for i := 0 to |events|
        invariant |backupEvents| == i
        invariant forall k | 0 <= k < i :: backupEvents[k] == BackupEvent(events[k])
      {
        var e := events[i];
        backupEvents := backupEvents + [BackupModels.Event(e.start, e.end, e.excluded, e.off)];
      }
      document := BackupModels.Document(backupSettings, backupEvents);
    }

    /** `Restore`: empty both stores, add the document's events in order, then
        add or update its settings in order. */
    method Restore(document: BackupModels.Document)
      modifies this
      requires Valid()
      ensures |events| == |document.events|
      ensures forall i | 0 <= i < |events| :: BackupEvent(events[i]) == document.events[i]
      ensures forall i | 0 <= i < |events| :: events[i].id == old(nextEventId) + i
      ensures nextEventId == old(nextEventId) + |document.events|
      ensures settings == AddAll([], document.settings)
      ensures Valid()
    {
      events := [];
      settings := [];
      AddEvents(document.events);
      SetAll(document.settings);
    }

    /** The first loop of `Restore`: add each event of the list, in order, to an
        empty event store. */
    method AddEvents(list: seq<BackupModels.Event>)
      modifies this
      requires Valid() && events == []
      ensures |events| == |list|
      ensures forall i | 0 <= i < |events| :: BackupEvent(events[i]) == list[i]
      ensures forall i | 0 <= i < |events| :: events[i].id == old(nextEventId) + i
      ensures nextEventId == old(nextEventId) + |list|
      ensures settings == old(settings)
      ensures Valid()
    {
      for i := 0 to |list|
        invariant |events| == i && nextEventId == old(nextEventId) + i && settings == old(settings)
        invariant forall k | 0 <= k < i :: BackupEvent(events[k]) == list[k]
        invariant forall k | 0 <= k < i :: events[k].id == old(nextEventId) + k
        invariant Valid()
      {
        var e := list[i];
        AddEvent(e.start, e.end, e.excluded, e.off);
      }
    }

    /** The second loop of `Restore`: add or update each setting of the list,
        in order, starting from an empty settings store. */
    method SetAll(list: seq<BackupModels.Setting>)
      modifies this
      requires Valid() && settings == []
      ensures settings == AddAll([], list)
      ensures events == old(events) && nextEventId == old(nextEventId)
      ensures Valid()
    {
      for i := 0 to |list|
        invariant settings == AddAll([], list[..i])
        invariant events == old(events) && nextEventId == old(nextEventId)
        invariant Valid()
      {
        var s := list[i];
        assert list[..i + 1][..i] == list[..i];
        SettingsSet(s.key, s.value);
      }
      assert list[..|list|] == list;
    }

    /** Backup then restore gives back the same settings, and the same events
        apart from their IDs. */
    method BackupThenRestore()
      modifies this
      requires Valid()
      ensures settings == old(settings)
      ensures |events| == |old(events)|
      ensures forall i | 0 <= i < |events| :: BackupEvent(events[i]) == BackupEvent(old(events)[i])
      ensures Valid()
    {
      var document := Backup();
      RestoreUndoesBackup(settings, document.settings);
      Restore(document);
    }

    /** `SummaryYear`: one row per year among the events (the year, expected,
        total and difference), sorted by year; fails, as `ErrorHandler` does,
        when the workday or break setting cannot be read. */
    method SummaryYear() returns (r: Result<seq<Row>>)
      ensures r.Err? <==> GetSettings(settings).Err?
      ensures r.Err? ==> r.error == GetSettings(settings).error
      ensures r.Ok? ==> var (workday, breaktime) := GetSettings(settings).value;
        forall row :: row in r.value <==> exists e | e in events :: row == YearRow(events, YearKey(e.start), workday, breaktime)
      ensures r.Ok? ==> StrictlySortedByKey(r.value)
      ensures r.Ok? ==> var (workday, breaktime) := GetSettings(settings).value;
        multiset(r.value) == multiset(YearRows(events, BuildListOf(YearLayout, events), workday, breaktime))
    {
      var figures :- GetSettings(settings);
      var data := YearData(events, figures.0, figures.1);
      var sorted := SortByKey(data);
      SortedYearRows(events, figures.0, figures.1, sorted);
      return Ok(sorted);
    }

    /** `SummaryDay`: one row per date among the events whose total, less the
        break unless the day is excluded, is positive, sorted by date; fails
        when the settings cannot be read, though only the break is used. */
    method SummaryDay() returns (r: Result<seq<Row>>)
      ensures r.Err? <==> GetSettings(settings).Err?
      ensures r.Err? ==> r.error == GetSettings(settings).error
      ensures r.Ok? ==> var breaktime := GetSettings(settings).value.1;
        forall row :: row in r.value <==> exists e | e in events ::
          DayTotal(events, DateKey(e.start), breaktime) > 0 && row == DayRow(events, DateKey(e.start), breaktime)
      ensures r.Ok? ==> forall row | row in r.value :: DayTotal(events, row[0], GetSettings(settings).value.1) > 0
      ensures r.Ok? ==> StrictlySortedByKey(r.value)
      ensures r.Ok? ==> var breaktime := GetSettings(settings).value.1;
        multiset(r.value) == multiset(DayRows(events, BuildListOf(DateLayout, events), breaktime))
    {
      var figures :- GetSettings(settings);
      var data := DayData(events, figures.1);
      var sorted := SortByKey(data);
      SortedDayRows(events, figures.1, sorted);
      return Ok(sorted);
    }
  }

  /** The loop of `SummaryYear`: for each year, in the order `BuildListOf`
      finds them, its row. */
  method YearData(items: seq<Event>, workday: int, breaktime: int) returns (data: seq<Row>)
    ensures data == YearRows(items, BuildListOf(YearLayout, items), workday, breaktime)
  {
    var years := BuildListOf(YearLayout, items);
    var rowOf := YearRowOf(items, workday, breaktime);
    data := [];
    for i := 0 to |years|
      invariant data == RowsOf(years[..i], rowOf)
    {
      var row := YearEntry(items, years[i], workday, breaktime);
      RowsOfStep(years, rowOf, i);
      data := data + [row];
    }
    assert years[..|years|] == years;
  }

  /** The body of that loop: the year's events, its days that count, the
      expected minutes, the total less the breaks, the difference, and the row
      of the three as durations. */
  method YearEntry(items: seq<Event>, year: string, workday: int, breaktime: int) returns (row: Row)
    ensures row == YearRowOf(items, workday, breaktime)(year)
  {
    var events := FilterEventsFrom(YearLayout, items, year);
    var numberOfDays := CountDaysNotExcluded(events);
    var expected := numberOfDays * workday;
    var total := CalculateTotal(events);
    total := total - numberOfDays * breaktime;
    var diff := total - expected;
    assert YearRowOf(items, workday, breaktime)(year)
        == [year, FormatDuration(expected), FormatDuration(total), FormatDuration(diff)] by {
      YearRowOfFigures(items, year, workday, breaktime, YearFigures(numberOfDays, expected, total, diff));
    }
    var expectedText := IntOfMinutesToString(expected);
    var totalText := IntOfMinutesToString(total);
    var diffText := IntOfMinutesToString(diff);
    row := [year, expectedText, totalText, diffText];
  }

  /** A year's row written out from its figures. */
  lemma YearRowOfFigures(items: seq<Event>, year: string, workday: int, breaktime: int, f: YearFigures)
    requires f == FiguresOfYear(items, year, workday, breaktime)
    ensures YearRowOf(items, workday, breaktime)(year)
      == [year, FormatDuration(f.expected), FormatDuration(f.total), FormatDuration(f.difference)]
  {
  }

  /** The loop of `SummaryDay`: for each date, in the order `BuildListOf` finds
      them, its row when its total is positive. */
  method DayData(items: seq<Event>, breaktime: int) returns (data: seq<Row>)
    ensures data == DayRows(items, BuildListOf(DateLayout, items), breaktime)
  {
    var days := BuildListOf(DateLayout, items);
    var keep, rowOf := HasPositiveTotal(items, breaktime), DayRowOf(items, breaktime);
    data := [];
    for i := 0 to |days|
      invariant data == KeptRowsOf(days[..i], keep, rowOf)
    {
      var kept := DayEntry(items, days[i], breaktime);
      KeptRowsOfStep(days, keep, rowOf, i);
      data := data + kept;
    }
    assert days[..|days|] == days;
  }

  /** The body of that loop: the day's events, whether the day is excluded,
      its total less the break unless it is, and its row when that total is
      positive. */
  method DayEntry(items: seq<Event>, day: string, breaktime: int) returns (kept: seq<Row>)
    ensures kept == if HasPositiveTotal(items, breaktime)(day) then [DayRowOf(items, breaktime)(day)] else []
  {
    var events := FilterEventsFrom(DateLayout, items, day);
    var excluded := IsDayExcluded(events);
    var total := CalculateTotal(events);
    if !excluded {
      total := total - breaktime;
    }
    assert total == DayTotal(items, day, breaktime);
    assert (if HasPositiveTotal(items, breaktime)(day) then [DayRowOf(items, breaktime)(day)] else [])
        == (if total > 0 then [[day, FormatDuration(total)]] else []) by {
      DayRowOfTotal(items, day, breaktime, total);
    }
    kept := [];
    if total > 0 {
      var totalText := IntOfMinutesToString(total);
      kept := [[day, totalText]];
    }
  }

  /** A day's row written out from its total. */
  lemma DayRowOfTotal(items: seq<Event>, day: string, breaktime: int, total: int)
    requires total == DayTotal(items, day, breaktime)
    ensures HasPositiveTotal(items, breaktime)(day) == (total > 0)
    ensures DayRowOf(items, breaktime)(day) == [day, FormatDuration(total)]
  {
  }

  /** What the stable sort of the year rows yields. */
  lemma SortedYearRows(items: seq<Event>, workday: int, breaktime: int, sorted: seq<Row>)
    requires var data := YearRows(items, BuildListOf(YearLayout, items), workday, breaktime);
      SortedByKey(sorted) && (forall key :: WithKey(sorted, key) == WithKey(data, key))
      && multiset(sorted) == multiset(data)
    ensures forall row :: row in sorted <==> exists e | e in items :: row == YearRow(items, YearKey(e.start), workday, breaktime)
    ensures StrictlySortedByKey(sorted)
  {
    var data := YearRows(items, BuildListOf(YearLayout, items), workday, breaktime);
    YearRowsOnePerYear(items, workday, breaktime);
    SortedDistinctIsStrict(data, sorted);
    SameMembers(data, sorted);
  }

  /** What the stable sort of the day rows yields. */
  lemma SortedDayRows(items: seq<Event>, breaktime: int, sorted: seq<Row>)
    requires var data := DayRows(items, BuildListOf(DateLayout, items), breaktime);
      SortedByKey(sorted) && (forall key :: WithKey(sorted, key) == WithKey(data, key))
      && multiset(sorted) == multiset(data)
    ensures forall row :: row in sorted <==> exists e | e in items ::
      DayTotal(items, DateKey(e.start), breaktime) > 0 && row == DayRow(items, DateKey(e.start), breaktime)
    ensures forall row | row in sorted :: DayTotal(items, row[0], breaktime) > 0
    ensures StrictlySortedByKey(sorted)
  {
    var data := DayRows(items, BuildListOf(DateLayout, items), breaktime);
    DayRowsOnePerDay(items, breaktime);
    DayRowsDistinct(items, breaktime);
    SortedDistinctIsStrict(data, sorted);
    SameMembers(data, sorted);
  }

  // ---------------------------------------------------------------------------
  // A worked example

  /** 08:00 to 10:00 UTC on day `day` of January 2010. */
  function TwoHoursOn(day: int): Event
    requires 1 <= day <= 3
  {
    Event(day, Timestamp(2010, 1, day, 8, 0, 0), Timestamp(2010, 1, day, 10, 0, 0), false, false)
  }

  /** Three two-hour days in 2010, none excluded. */
  function ThreeDays(): seq<Event>
  {
    [TwoHoursOn(1), TwoHoursOn(2), TwoHoursOn(3)]
  }

  /** With no workday and no break, the three days give one row for 2010:
      nothing expected, six hours logged, six hours over. */
  lemma ThreeDaysYearRows(items: seq<Event>)
    requires items == ThreeDays()
    ensures YearRows(items, BuildListOf(YearLayout, items), 0, 0) == [["2010", "0h 0m", "6h 0m", "6h 0m"]]
  {
    ThreeDaysKeys(items);
    OnePeriod(YearLayout, items, "2010");
    OneYearRow(items, "2010", 0, 0);
    ThreeDaysRow(items);
  }

  lemma ThreeDaysRow(items: seq<Event>)
    requires items == ThreeDays()
    ensures YearRow(items, "2010", 0, 0) == ["2010", "0h 0m", "6h 0m", "6h 0m"]
  {
    ThreeDaysFigures(items);
    SixHoursText();
  }

  /** A single year gives a single row. */
  lemma OneYearRow(items: seq<Event>, year: string, workday: int, breaktime: int)
    ensures YearRows(items, [year], workday, breaktime) == [YearRow(items, year, workday, breaktime)]
  {
  }

  lemma SixHoursText()
    ensures FormatDuration(0) == "0h 0m" && FormatDuration(360) == "6h 0m"
  {
    assert IntToString(0) == "0" && IntToString(6) == "6";
    assert 360 / 60 == 6 && 360 % 60 == 0;
  }

  lemma ThreeDaysKeys(items: seq<Event>)
    requires items == ThreeDays()
    ensures forall e | e in items :: Key(YearLayout, e.start) == "2010"
    ensures DistinctDates(items)
  {
    forall e | e in items
      ensures Key(YearLayout, e.start) == "2010"
    {
      YearOf2010(e.start);
    }
    forall i, j | 0 <= i < j < 3
      ensures DateKey(items[i].start) != DateKey(items[j].start)
    {
      DateKeySameDate(items[i].start, items[j].start);
    }
  }

  lemma YearOf2010(t: Time)
    requires t.year == 2010
    ensures YearKey(t) == "2010"
  {
    assert Pow10(4) == 10000;
    assert DigitChar(0) == '0' && DigitChar(1) == '1' && DigitChar(2) == '2';
    assert Pad(2, 1) == "2" && Pad(20, 2) == "20" && Pad(201, 3) == "201";
    assert Pad(2010, 4) == "2010";
  }

  lemma TwoHours(day: int)
    requires 1 <= day <= 3
    ensures EventMinutes(TwoHoursOn(day)) == 120
  {
    var e := TwoHoursOn(day);
    DateKeySameDate(e.start, e.end);
    SameDayEventMinutes(e);
  }

  lemma ThreeDaysFigures(items: seq<Event>)
    requires items == ThreeDays()
    ensures FiguresOfYear(items, "2010", 0, 0) == YearFigures(3, 0, 360, 360)
  {
    ThreeDaysKeys(items);
    OnePeriod(YearLayout, items, "2010");
    ThreeDaysCounted(items);
    ThreeDaysTotal(items);
  }

  lemma ThreeDaysCounted(items: seq<Event>)
    requires items == ThreeDays()
    ensures CountDaysNotExcluded(items) == 3
  {
    ThreeDaysKeys(items);
    DistinctDatesCount(items);
    ThreeIncluded(items);
  }

  lemma ThreeIncluded(items: seq<Event>)
    requires |items| == 3 && !items[0].excluded && !items[1].excluded && !items[2].excluded
    ensures IncludedEvents(items) == 3
  {
    var p1, p2 := items[..1], items[..2];
    assert p2[..1] == p1 && p1[..0] == [] && items[..2] == p2;
    assert IncludedEvents(p1) == 1;
    assert IncludedEvents(p2) == 2;
  }

  lemma ThreeDaysTotal(items: seq<Event>)
    requires items == ThreeDays()
    ensures CalculateTotal(items) == 360
  {
    TwoHours(1);
    TwoHours(2);
    TwoHours(3);
    assert items[..2][..1] == items[..1] && items[..1][..0] == [];
    assert CalculateTotal(items[..1]) == 120;
    assert CalculateTotal(items[..2]) == 240;
  }

  /** The worked example run through `SummaryYear`, over stores that already
      hold the three days and a workday and a break of 0. */
  method SummaryYearExample() returns (r: Result<seq<Row>>)
    ensures r == Ok([["2010", "0h 0m", "6h 0m", "6h 0m"]])
  {
    var settings := ZeroSettings();
    ZeroSettingsRead(settings);
    ThreeDaysStored(settings);
    var runner := new Runner(ThreeDays(), 4, settings);
    r := runner.SummaryYear();
    ThreeDaysYearRows(runner.events);
    OnlyRow(r.value, ["2010", "0h 0m", "6h 0m", "6h 0m"]);
  }

  /** A workday and a break of 0 minutes. */
  function ZeroSettings(): seq<Setting>
  {
    [Setting(WorkdayKey, "0"), Setting(BreakKey, "0")]
  }

  lemma ZeroSettingsRead(settings: seq<Setting>)
    requires settings == ZeroSettings()
    ensures GetSettings(settings) == Ok((0, 0))
  {
    assert IntToString(0) == "0";
    assert settings[0].key != settings[1].key;
    GetSettingsOfStored(settings, 0, 0);
  }

  lemma ThreeDaysStored(settings: seq<Setting>)
    requires settings == ZeroSettings()
    ensures StoresValid(ThreeDays(), 4, settings)
  {
    assert settings[0].key != settings[1].key;
  }

  /** The only ordering of a single row is that row. */
  lemma OnlyRow(rows: seq<Row>, row: Row)
    requires multiset(rows) == multiset([row])
    ensures rows == [row]
  {
    assert |rows| == 1;
    assert rows[0] in multiset(rows);
  }
}
