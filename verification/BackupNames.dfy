/**
 Backup file names of src/backup/filename.go and what reading one back makes of it. The
 regular expressions of the source are the matchers below; time is UTC.
 */
module BackupNames {
  import opened Results
  import opened Text
  import opened Calendar
  import opened Retention
  import opened Stamps

  // ----- Building names

  /** A year has four digits, or more from 10000 on. */
  function YearText(year: nat): (s: string)
    ensures AllDigits(s) && (year <= 9999 ==> s == Pad(year, 4))
  {
    Pad(year, YearWidth(year))
  }

  function YearWidth(year: nat): nat {
    if year < 10_000 then 4 else 1 + YearWidth(year / 10)
  }

  function FormatDate(d: Date): (s: string)
    ensures d.year <= 9999 ==> |s| == 10
  {
    YearText(d.year) + "-" + Pad(d.month, 2) + "-" + Pad(d.day, 2)
  }

  function Ext(encrypted: bool): string {
    if encrypted then ".tar.gz.enc" else ".tar.gz"
  }

  const BACKUP: string := "_backup_"

  function FullFilename(project: string, t: nat, encrypted: bool): string {
    project + BACKUP + FormatDate(DateOf(DayOf(t))) + Ext(encrypted)
  }

  function ManualFilename(project: string, t: nat, encrypted: bool): string {
    project + BACKUP + FormatDate(DateOf(DayOf(t))) + "_" + FormatTime(t) + Ext(encrypted)
  }

  function DailyIncrementalFilename(project: string, encrypted: bool): string {
    project + "-daily" + Ext(encrypted)
  }

  function HourlyIncrementalFilename(project: string, encrypted: bool): string {
    project + "-hourly" + Ext(encrypted)
  }

  // ----- Matching names

  predicate IsExt(s: string) {
    s == Ext(false) || s == Ext(true)
  }

  predicate DateShape(s: string) {
    |s| == 10 && AllDigits(s[..4]) && s[4] == '-' && AllDigits(s[5..7]) && s[7] == '-' && AllDigits(s[8..])
  }

  function After(s: string, prefix: string): Option<string> {
    if HasPrefix(s, prefix) then Some(s[|prefix|..]) else None
  }

  predicate IsFull(project: string, name: string) {
    var rest := After(name, project + BACKUP);
    rest.Some? && |rest.value| >= 10 && DateShape(rest.value[..10]) && IsExt(rest.value[10..])
  }

  predicate IsManual(project: string, name: string) {
    var rest := After(name, project + BACKUP);
    rest.Some? && |rest.value| >= 17 && DateShape(rest.value[..10]) && rest.value[10] == '_' &&
    AllDigits(rest.value[11..17]) && IsExt(rest.value[17..])
  }

  predicate IsIncremental(project: string, name: string) {
    var daily, hourly := After(name, project + "-daily"), After(name, project + "-hourly");
    (daily.Some? && IsExt(daily.value)) || (hourly.Some? && IsExt(hourly.value))
  }

  /** White space as a regular expression's \s has it. */
  predicate NoSpace(s: string) {
    forall i | 0 <= i < |s| :: s[i] !in " \t\n\r\U{C}"
  }

  predicate EndsInExt(s: string) {
    exists encrypted: bool ::
      var e := Ext(encrypted);
      |e| <= |s| && s[|s| - |e|..] == e && NoSpace(s[..|s| - |e|])
  }

  predicate IsGeneric(project: string, name: string) {
    (After(name, project + BACKUP).Some? && EndsInExt(After(name, project + BACKUP).value)) ||
    (After(name, project + "-").Some? && EndsInExt(After(name, project + "-").value))
  }

  // ----- Reading dates

  datatype Moment = Moment(month: nat, day: nat, weekday: nat, instant: int)

  /** time.Parse of a text of the right shape. */
  function ParseDate(s: string): Option<Moment>
    requires DateShape(s)
  {
    var year, month, day := Value(s[..4]), Value(s[5..7]), Value(s[8..]);
    if ValidDay(year, month, day) then
      Some(Moment(month, day, (CivilDay(year, month, day) + 1) % 7, CivilDay(year, month, day) * DAY))
    else None
  }

  function ParseDateTime(date: string, time: string): Option<Moment>
    requires DateShape(date) && |time| == 6 && AllDigits(time)
  {
    var d, time := ParseDate(date), ParseTime(time);
    if d.Some? && time.Some? then Some(d.value.(instant := d.value.instant + time.value)) else None
  }

  function MomentOf(t: nat): Moment {
    var d := DateOf(DayOf(t));
    Moment(d.month, d.day, Weekday(DayOf(t)), t)
  }

  // ----- Classifying

  /** New Year's Day, then the first of a month, then Sunday, then any day. */
  function Classify(m: Moment): Class {
    if m.month == 1 && m.day == 1 then Yearly
    else if m.day == 1 then Monthly
    else if m.weekday == 0 then Weekly
    else Daily
  }

  function OrElse(m: Option<Moment>, modTime: nat): Moment {
    if m.Some? then m.value else MomentOf(modTime)
  }

  function Dated(name: string, size: nat, m: Moment): File {
    File(name, m.instant, size, Classify(m))
  }

  /** The file a name describes, or nothing for a name that is not a backup of the project. */
  function ClassifyFile(project: string, name: string, size: nat, modTime: nat): Option<File> {
    if IsFull(project, name) then
      Some(Dated(name, size, OrElse(ParseDate(After(name, project + BACKUP).value[..10]), modTime)))
    else if IsManual(project, name) then
      var rest := After(name, project + BACKUP).value;
      Some(Dated(name, size, OrElse(ParseDateTime(rest[..10], rest[11..17]), modTime)))
    else if IsIncremental(project, name) then Some(File(name, modTime, size, Incremental))
    else if IsGeneric(project, name) then Some(Dated(name, size, MomentOf(modTime)))
    else None
  }

  // ----- The tier of a day

  /** The day begins month `m` of a year. */
  predicate BeginsMonth(day: nat, y: nat, m: nat) {
    y >= 1 && 1 <= m <= 12 && day == YearStart(y) + MonthStart(y, m)
  }

  /** The day is a Sunday: day 0 was a Monday. */
  predicate IsSunday(day: nat) {
    day % 7 == 6
  }

  /** Yearly for a first of January, monthly for the first of another month, weekly for another Sunday, daily otherwise. */
  ghost predicate InTier(day: nat, c: Class) {
    match c
    case Yearly => exists y :: BeginsMonth(day, y, 1)
    case Monthly => exists y, m :: m > 1 && BeginsMonth(day, y, m)
    case Weekly => IsSunday(day) && forall y, m :: !BeginsMonth(day, y, m)
    case Daily => !IsSunday(day) && forall y, m :: !BeginsMonth(day, y, m)
    case Incremental => false
  }

  lemma BeginsIff(day: nat, y: nat, m: nat)
    ensures BeginsMonth(day, y, m) <==> DateOf(day) == Date(y, m, 1)
  {
    hide DateOf, YearStart, MonthStart;
    if BeginsMonth(day, y, m) {
      DayNumberInjective(DateOf(day), Date(y, m, 1));
    }
  }

  lemma TierOfDay(t: nat, c: Class)
    ensures Classify(MomentOf(t)) == c <==> InTier(DayOf(t), c)
  {
    hide DateOf, DayOf, BeginsMonth, Weekday, IsSunday;
    BeginsSome(DayOf(t));
    SundayIff(DayOf(t));
  }

  lemma SundayIff(day: nat)
    ensures Weekday(day) == 0 <==> IsSunday(day)
  {}

  lemma BeginsSome(day: nat)
    ensures (exists y :: BeginsMonth(day, y, 1)) <==> DateOf(day).month == 1 && DateOf(day).day == 1
    ensures (exists y, m :: m > 1 && BeginsMonth(day, y, m)) <==> DateOf(day).month > 1 && DateOf(day).day == 1
    ensures (exists y, m :: BeginsMonth(day, y, m)) <==> DateOf(day).day == 1
  {
    hide DateOf, BeginsMonth;
    var date := DateOf(day);
    forall y, m ensures BeginsMonth(day, y, m) <==> date == Date(y, m, 1) {
      BeginsIff(day, y, m);
    }
    assert date.day == 1 ==> BeginsMonth(day, date.year, date.month);
  }

  // ----- Dates read back

  lemma DateReadsBack(d: Date)
    requires ValidDate(d) && d.year <= 9999
    ensures DateShape(FormatDate(d))
    ensures ParseDate(FormatDate(d)) == Some(Moment(d.month, d.day, Weekday(DayNumber(d)), DayNumber(d) * DAY))
  {
    DateDigits(d);
    hide FormatDate, Value, DayNumber;
  }

  lemma DateDigits(d: Date)
    requires ValidDate(d) && d.year <= 9999
    ensures var s := FormatDate(d);
            DateShape(s) && Value(s[..4]) == d.year && Value(s[5..7]) == d.month && Value(s[8..]) == d.day
  {
    hide FormatDate, Pad, Value;
    var s := FormatDate(d);
    ShortDate(d);
    assert s[..4] == Pad(d.year, 4) && s[5..7] == Pad(d.month, 2) && s[8..] == Pad(d.day, 2);
    assert Ten(2) == 100 && Ten(4) == 10_000;
    PadReadsBack(d.year, 4);
    PadReadsBack(d.month, 2);
    PadReadsBack(d.day, 2);
  }

  lemma ShortDate(d: Date)
    requires d.year <= 9999
    ensures FormatDate(d) == Pad(d.year, 4) + "-" + Pad(d.month, 2) + "-" + Pad(d.day, 2)
  {
    hide Pad;
  }

  lemma DateTimeReadsBack(t: nat)
    requires FourDigitYear(t)
    ensures var date, time := FormatDate(DateOf(DayOf(t))), FormatTime(t);
            DateShape(date) && AllDigits(time) && ParseDateTime(date, time) == Some(MomentOf(t).(instant := t - t % SECOND))
  {
    hide FormatDate, FormatTime, ParseDate, ParseTime, DateShape, DateOf, DayNumber, AllDigits;
    FourDigits(t);
    DateReadsBack(DateOf(DayOf(t)));
    TimeReadsBack(t);
  }

  // ----- Names read back

  lemma AfterPrefix(prefix: string, rest: string)
    ensures After(prefix + rest, prefix) == Some(rest)
  {}

  lemma ExtStarts(s: string)
    ensures IsExt(s) ==> s != "" && s[0] == '.'
  {}

  lemma FullMatches(project: string, date: string, encrypted: bool)
    requires DateShape(date)
    ensures var name := project + BACKUP + date + Ext(encrypted);
            IsFull(project, name) && After(name, project + BACKUP).value[..10] == date
  {
    hide Ext, HasPrefix, IsExt;
    var rest := date + Ext(encrypted);
    assert project + BACKUP + date + Ext(encrypted) == (project + BACKUP) + rest;
    AfterPrefix(project + BACKUP, rest);
    assert rest[..10] == date && rest[10..] == Ext(encrypted);
    ExtIsExt(encrypted);
  }

  /** A full name gives back its day and that day's tier. */
  lemma FullReadsBack(project: string, t: nat, encrypted: bool, size: nat, modTime: nat)
    requires FourDigitYear(t)
    ensures var name := FullFilename(project, t, encrypted);
            ClassifyFile(project, name, size, modTime) == Some(File(name, DayOf(t) * DAY, size, Classify(MomentOf(t))))
    ensures InTier(DayOf(t), Classify(MomentOf(t)))
  {
    TierOfDay(t, Classify(MomentOf(t)));
    hide InTier;
    hide FormatDate, ParseDate, DateShape, IsFull, IsManual, IsIncremental, IsGeneric, Ext, After, DateOf, DayOf, FourDigitYear;
    FourDigits(t);
    DateReadsBack(DateOf(DayOf(t)));
    FullMatches(project, FormatDate(DateOf(DayOf(t))), encrypted);
  }

  lemma ManualMatches(project: string, date: string, time: string, encrypted: bool, rest: string)
    requires DateShape(date) && |time| == 6 && AllDigits(time) && rest == date + "_" + time + Ext(encrypted)
    ensures var name := project + BACKUP + rest;
            !IsFull(project, name) && IsManual(project, name) && After(name, project + BACKUP) == Some(rest) &&
            rest[..10] == date && rest[11..17] == time
  {
    hide AllDigits, Ext, HasPrefix, IsExt;
    AfterPrefix(project + BACKUP, rest);
    assert rest[..10] == date && rest[10] == '_' && rest[11..17] == time && rest[17..] == Ext(encrypted);
    ExtStarts(rest[10..]);
    assert IsExt(Ext(encrypted)) by {
      ExtIsExt(encrypted);
    }
  }

  lemma Regrouped(a: string, b: string, c: string, d: string, e: string)
    ensures a + b + c + d + e == a + (b + c + d + e)
  {}

  lemma ExtIsExt(encrypted: bool)
    ensures IsExt(Ext(encrypted))
  {}

  /** A manual name gives back its second and that day's tier. */
  lemma ManualReadsBack(project: string, t: nat, encrypted: bool, size: nat, modTime: nat)
    requires FourDigitYear(t)
    ensures var name := ManualFilename(project, t, encrypted);
            ClassifyFile(project, name, size, modTime) == Some(File(name, t - t % SECOND, size, Classify(MomentOf(t))))
    ensures InTier(DayOf(t), Classify(MomentOf(t)))
  {
    TierOfDay(t, Classify(MomentOf(t)));
    hide InTier;
    hide FormatDate, FormatTime, ParseDateTime, DateShape, IsFull, IsManual, IsIncremental, IsGeneric, MomentOf;
    hide AllDigits, Ext, After, DateOf, DayOf;
    var date, time := FormatDate(DateOf(DayOf(t))), FormatTime(t);
    var rest := date + "_" + time + Ext(encrypted);
    DateTimeReadsBack(t);
    ManualMatches(project, date, time, encrypted, rest);
    Regrouped(project + BACKUP, date, "_", time, Ext(encrypted));
  }

  /** Incremental names are read as incrementals, so no sweep ever selects them. */
  lemma IncrementalReadsBack(project: string, daily: bool, encrypted: bool, size: nat, modTime: nat)
    ensures var name := if daily then DailyIncrementalFilename(project, encrypted) else HourlyIncrementalFilename(project, encrypted);
            ClassifyFile(project, name, size, modTime) == Some(File(name, modTime, size, Incremental))
  {
    hide IsGeneric, Ext;
    var start := project + if daily then "-daily" else "-hourly";
    var name := start + Ext(encrypted);
    AfterPrefix(start, Ext(encrypted));
    assert name[|project|] == '-';
    assert !HasPrefix(name, project + BACKUP) by {
      assert (project + BACKUP)[|project|] == '_';
    }
  }

  /** A date-shaped text that is a date of the years 1 to 9999 is how that date is printed. */
  lemma DateIsCanonical(s: string)
    requires DateShape(s) && ParseDate(s).Some? && Value(s[..4]) >= 1
    ensures var m := ParseDate(s).value; m.instant >= 0 && FormatDate(DateOf(DayOf(m.instant))) == s
  {
    hide ParseDate, DateOf, DayOf, FormatDate, Value, DayNumber;
    var d := Date(Value(s[..4]), Value(s[5..7]), Value(s[8..]));
    ParsedDay(s, d);
    MidnightDay(DayNumber(d));
    DateOfDayNumber(d);
    ShapePrintsBack(s);
  }

  lemma ParsedDay(s: string, d: Date)
    requires DateShape(s) && ParseDate(s).Some? && d == Date(Value(s[..4]), Value(s[5..7]), Value(s[8..])) && d.year >= 1
    ensures ValidDate(d) && ParseDate(s).value.instant == DayNumber(d) * DAY
  {
    hide Value, DayNumber, DaysInMonth;
  }

  lemma MidnightDay(n: nat)
    ensures n * DAY >= 0 && DayOf(n * DAY) == n
  {
    DivMod(n, 0, DAY);
  }

  lemma ShapePrintsBack(s: string)
    requires DateShape(s)
    ensures FormatDate(Date(Value(s[..4]), Value(s[5..7]), Value(s[8..]))) == s
  {
    hide Pad, Value;
    assert Ten(4) == 10_000;
    ValuePrintsBack(s[..4]);
    ValuePrintsBack(s[5..7]);
    ValuePrintsBack(s[8..]);
    assert s == s[..4] + "-" + s[5..7] + "-" + s[8..];
  }

  /** So a full name with such a date is the name that day's backup is stored under. */
  lemma FullIsCanonical(project: string, name: string, size: nat, modTime: nat)
    requires IsFull(project, name) && ParseDate(After(name, project + BACKUP).value[..10]).Some?
    requires Value(After(name, project + BACKUP).value[..4]) >= 1
    ensures var f := ClassifyFile(project, name, size, modTime);
            f.Some? && f.value.date >= 0 &&
            (name == FullFilename(project, f.value.date, false) || name == FullFilename(project, f.value.date, true))
  {
    hide ParseDate, FormatDate, DateShape, Ext, DateOf, Value;
    var rest := After(name, project + BACKUP).value;
    assert rest[..4] == rest[..10][..4];
    DateIsCanonical(rest[..10]);
    assert name == (project + BACKUP) + (rest[..10] + rest[10..]);
  }

  /** An accepted name that gives no readable date is dated by the file's modification time. */
  lemma NoDateFallsBack(project: string, name: string, size: nat, modTime: nat)
    requires IsGeneric(project, name) && !IsFull(project, name) && !IsManual(project, name) && !IsIncremental(project, name)
    ensures var f := ClassifyFile(project, name, size, modTime);
            f.Some? && f.value.date == modTime && f.value.size == size && InTier(DayOf(modTime), f.value.tier)
  {
    hide IsGeneric, IsFull, IsManual, IsIncremental, InTier, DateOf;
    TierOfDay(modTime, Classify(MomentOf(modTime)));
  }

  /** So is one whose date does not exist. */
  lemma BadDateFallsBack(project: string, name: string, size: nat, modTime: nat)
    requires IsFull(project, name) && ParseDate(After(name, project + BACKUP).value[..10]).None?
    ensures var f := ClassifyFile(project, name, size, modTime);
            f.Some? && f.value.date == modTime && InTier(DayOf(modTime), f.value.tier)
  {
    hide ParseDate, DateShape, InTier, DateOf;
    TierOfDay(modTime, Classify(MomentOf(modTime)));
  }

  /** The names of backups of one moment, letter by letter. */
  lemma NamesLookLike()
    ensures FullFilename("redxt", SomeInstant(), false) == "redxt_backup_2024-03-05.tar.gz"
    ensures ManualFilename("redxt", SomeInstant(), true) == "redxt_backup_2024-03-05_131415.tar.gz.enc"
    ensures DailyIncrementalFilename("redxt", false) == "redxt-daily.tar.gz"
    ensures HourlyIncrementalFilename("redxt", true) == "redxt-hourly.tar.gz.enc"
  {
    hide FormatDate, DateOf, DayOf, SomeInstant, FormatTime;
    SomeInstantIs();
    DateLooksLike();
    FullLooksLike(SomeInstant());
    ManualLooksLike(SomeInstant());
  }

  lemma FullLooksLike(t: nat)
    requires FormatDate(DateOf(DayOf(t))) == "2024-03-05"
    ensures FullFilename("redxt", t, false) == "redxt_backup_2024-03-05.tar.gz"
  {
    hide FormatDate, DateOf, DayOf;
    assert "redxt" + "_backup_" == "redxt_backup_";
    assert "redxt_backup_" + "2024-03-05" == "redxt_backup_2024-03-05";
  }

  lemma ManualLooksLike(t: nat)
    requires FormatDate(DateOf(DayOf(t))) == "2024-03-05" && FormatTime(t) == "131415"
    ensures ManualFilename("redxt", t, true) == "redxt_backup_2024-03-05_131415.tar.gz.enc"
  {
    hide FormatDate, FormatTime, DateOf, DayOf;
    assert "redxt" + "_backup_" == "redxt_backup_";
    assert "redxt_backup_" + "2024-03-05" == "redxt_backup_2024-03-05";
    assert "redxt_backup_2024-03-05" + "_" + "131415" == "redxt_backup_2024-03-05_131415";
  }

  lemma DateLooksLike()
    ensures FormatDate(Date(2024, 3, 5)) == "2024-03-05"
  {
    hide Pad, FormatDate;
    ShortDate(Date(2024, 3, 5));
    Year2024();
    TwoDigits(3, '0', '3');
    TwoDigits(5, '0', '5');
  }

  // ----- Which names are accepted

  /** No tab, line break, form feed, carriage return or blank. */
  lemma NoSpaceIff(s: string)
    ensures NoSpace(s) <==> forall i | 0 <= i < |s| :: s[i] as int !in {9, 10, 12, 13, 32}
  {
    forall i | 0 <= i < |s| ensures s[i] !in " \t\n\r\U{C}" <==> s[i] as int !in {9, 10, 12, 13, 32} {
      var spaces := " \t\n\r\U{C}";
      assert spaces[0] == ' ' && spaces[1] == '\t' && spaces[2] == '\n' && spaces[3] == '\r' && spaces[4] == '\U{C}';
    }
  }

  lemma EndsInExtOf(s: string, encrypted: bool)
    requires NoSpace(s)
    ensures EndsInExt(s + Ext(encrypted))
  {
    var e := Ext(encrypted);
    var all := s + e;
    assert all[|all| - |e|..] == e && all[..|all| - |e|] == s;
  }

  lemma DigitsHaveNoSpace(s: string)
    requires forall i | 0 <= i < |s| :: IsDigit(s[i]) || s[i] == '-' || s[i] == '_'
    ensures NoSpace(s)
  {}

  lemma ExtOf(s: string) returns (encrypted: bool)
    requires IsExt(s)
    ensures s == Ext(encrypted)
  {
    hide Ext;
    encrypted := s == Ext(true);
  }

  /** The generic pattern covers the specific ones, so it alone decides which files are ever looked at. */
  lemma AcceptedIffGeneric(project: string, name: string, size: nat, modTime: nat)
    ensures ClassifyFile(project, name, size, modTime).Some? <==> IsGeneric(project, name)
  {
    hide EndsInExt;
    if IsFull(project, name) {
      var rest := After(name, project + BACKUP).value;
      var encrypted := ExtOf(rest[10..]);
      ShapeHasNoSpace(rest[..10]);
      EndsInExtOf(rest[..10], encrypted);
      assert rest == rest[..10] + rest[10..];
    } else if IsManual(project, name) {
      var rest := After(name, project + BACKUP).value;
      var encrypted := ExtOf(rest[17..]);
      ShapeHasNoSpace(rest[..10]);
      StampHasNoSpace(rest[..17]);
      EndsInExtOf(rest[..17], encrypted);
      assert rest == rest[..17] + rest[17..];
    } else if IsIncremental(project, name) {
      IncrementalIsGeneric(project, name);
    }
  }

  lemma ShapeHasNoSpace(s: string)
    requires DateShape(s)
    ensures forall i | 0 <= i < 10 :: IsDigit(s[i]) || s[i] == '-'
    ensures NoSpace(s)
  {
    forall i | 0 <= i < 10 ensures IsDigit(s[i]) || s[i] == '-' {
      assert i < 4 ==> s[i] == s[..4][i];
      assert 5 <= i < 7 ==> s[i] == s[5..7][i - 5];
      assert 8 <= i ==> s[i] == s[8..][i - 8];
    }
    DigitsHaveNoSpace(s);
  }

  lemma StampHasNoSpace(s: string)
    requires |s| == 17 && (forall i | 0 <= i < 10 :: IsDigit(s[i]) || s[i] == '-') && s[10] == '_' && AllDigits(s[11..])
    ensures NoSpace(s)
  {
    forall i | 11 <= i < 17 ensures IsDigit(s[i]) {
      assert s[i] == s[11..][i - 11];
    }
    DigitsHaveNoSpace(s);
  }

  lemma IncrementalIsGeneric(project: string, name: string)
    requires IsIncremental(project, name)
    ensures IsGeneric(project, name)
  {
    hide EndsInExt, Ext;
    var daily := After(name, project + "-daily");
    var body := if daily.Some? && IsExt(daily.value) then "daily" else "hourly";
    var rest := After(name, project + "-" + body);
    assert project + "-daily" == project + "-" + "daily" && project + "-hourly" == project + "-" + "hourly";
    var encrypted := ExtOf(rest.value);
    assert name == (project + "-") + (body + Ext(encrypted));
    AfterPrefix(project + "-", body + Ext(encrypted));
    EndsInExtOf(body, encrypted);
  }

  lemma NoSpaceBoth(a: string, b: string)
    requires NoSpace(a) && (NoSpace(b) || b == BACKUP)
    ensures NoSpace(a + b)
  {}

  // ----- Which other projects' backups are accepted

  datatype Kind = FullBackup | ManualBackup | DailyIncremental | HourlyIncremental

  /** The name of a backup of a project, without its extension. */
  function Body(project: string, kind: Kind, t: nat): string {
    match kind
    case FullBackup => project + BACKUP + FormatDate(DateOf(DayOf(t)))
    case ManualBackup => project + BACKUP + FormatDate(DateOf(DayOf(t))) + "_" + FormatTime(t)
    case DailyIncremental => project + "-daily"
    case HourlyIncremental => project + "-hourly"
  }

  function Filename(project: string, kind: Kind, t: nat, encrypted: bool): string {
    match kind
    case FullBackup => FullFilename(project, t, encrypted)
    case ManualBackup => ManualFilename(project, t, encrypted)
    case DailyIncremental => DailyIncrementalFilename(project, encrypted)
    case HourlyIncremental => HourlyIncrementalFilename(project, encrypted)
  }

  /** The body starts with the project and the separator, and no white space comes after them. */
  predicate Starts(project: string, separator: string, body: string) {
    HasPrefix(body, project + separator) && NoSpace(body[|project + separator|..])
  }

  lemma ExtHasNoSeparator(encrypted: bool)
    ensures forall c | c in Ext(encrypted) :: c != '-' && c != '_'
  {}

  /** The last character of what must come first lies in the body, since no extension has it. */
  lemma PrefixEndsInBody(prefix: string, body: string, encrypted: bool)
    requires prefix != "" && prefix[|prefix| - 1] in "-_" && HasPrefix(body + Ext(encrypted), prefix)
    ensures HasPrefix(body, prefix)
  {
    var name := body + Ext(encrypted);
    var k := |prefix| - 1;
    assert name[k] == prefix[k];
    ExtHasNoSeparator(encrypted);
    assert name[..|prefix|] == body[..|prefix|];
  }

  lemma ExtEnds(encrypted: bool)
    ensures Ext(encrypted) != "" && Ext(encrypted)[|Ext(encrypted)| - 1] == if encrypted then 'c' else 'z'
  {}

  lemma ExtensionIsUnique(body: string, encrypted: bool)
    requires EndsInExt(body + Ext(encrypted))
    ensures NoSpace(body)
  {
    hide Ext, NoSpace;
    var all := body + Ext(encrypted);
    var other :| |Ext(other)| <= |all| && all[|all| - |Ext(other)|..] == Ext(other) && NoSpace(all[..|all| - |Ext(other)|]);
    ExtEnds(other);
    ExtEnds(encrypted);
    assert all[|all| - 1] == Ext(encrypted)[|Ext(encrypted)| - 1];
    assert all[|all| - |Ext(other)|..][|Ext(other)| - 1] == all[|all| - 1];
    assert all[..|body|] == body;
  }

  lemma SeparatorIff(project: string, separator: string, body: string, encrypted: bool)
    requires separator != "" && separator[|separator| - 1] in "-_"
    ensures var rest := After(body + Ext(encrypted), project + separator);
            rest.Some? && EndsInExt(rest.value) <==> Starts(project, separator, body)
  {
    hide EndsInExt, NoSpace, Ext;
    var prefix := project + separator;
    var name := body + Ext(encrypted);
    if HasPrefix(name, prefix) {
      PrefixEndsInBody(prefix, body, encrypted);
    }
    if HasPrefix(body, prefix) {
      assert body == prefix + body[|prefix|..] && name == prefix + (body[|prefix|..] + Ext(encrypted));
      AfterPrefix(prefix, body[|prefix|..] + Ext(encrypted));
      if NoSpace(body[|prefix|..]) {
        EndsInExtOf(body[|prefix|..], encrypted);
      }
      if EndsInExt(body[|prefix|..] + Ext(encrypted)) {
        ExtensionIsUnique(body[|prefix|..], encrypted);
      }
    }
  }

  lemma FilenameIs(project: string, kind: Kind, t: nat, encrypted: bool)
    ensures Filename(project, kind, t, encrypted) == Body(project, kind, t) + Ext(encrypted)
  {}

  /**
   A backup of any kind of project `q` is accepted for project `p` exactly when its name starts
   with `p` and a separator, with no white space from there to the extension.
   */
  lemma OtherProjectsAcceptedIff(p: string, q: string, kind: Kind, t: nat, encrypted: bool, size: nat, modTime: nat)
    ensures ClassifyFile(p, Filename(q, kind, t, encrypted), size, modTime).Some? <==>
            Starts(p, BACKUP, Body(q, kind, t)) || Starts(p, "-", Body(q, kind, t))
  {
    hide ClassifyFile, Filename, Body, Starts, EndsInExt, Ext, After;
    var body := Body(q, kind, t);
    FilenameIs(q, kind, t, encrypted);
    AcceptedIffGeneric(p, body + Ext(encrypted), size, modTime);
    SeparatorIff(p, BACKUP, body, encrypted);
    SeparatorIff(p, "-", body, encrypted);
  }

  lemma StartsWith(project: string, separator: string, rest: string)
    requires NoSpace(rest)
    ensures Starts(project, separator, project + separator + rest)
  {
    assert (project + separator + rest)[|project + separator|..] == rest;
  }

  lemma DateHasNoSpace(t: nat)
    ensures NoSpace(FormatDate(DateOf(DayOf(t))))
  {
    hide Pad, YearText, DateOf;
    var d := DateOf(DayOf(t));
    var y, m, day := YearText(d.year), Pad(d.month, 2), Pad(d.day, 2);
    assert AllDigits(y) && AllDigits(m) && AllDigits(day);
    DigitsHaveNoSpace(y + "-" + m + "-" + day);
  }

  /**
   So the backups of a project whose name continues this one's after either separator are
   accepted, which the comment on the patterns rules out.
   */
  lemma SiblingProjectIsAccepted(p: string, separator: string, suffix: string, t: nat, encrypted: bool, size: nat, modTime: nat)
    requires (separator == "-" || separator == BACKUP) && NoSpace(suffix)
    ensures ClassifyFile(p, FullFilename(p + separator + suffix, t, encrypted), size, modTime).Some?
  {
    hide ClassifyFile, Starts, NoSpace, FormatDate;
    var q, date := p + separator + suffix, FormatDate(DateOf(DayOf(t)));
    DateHasNoSpace(t);
    NoSpaceBoth(suffix, BACKUP);
    NoSpaceBoth(suffix + BACKUP, date);
    StartsWith(p, separator, suffix + BACKUP + date);
    assert Body(q, FullBackup, t) == p + separator + (suffix + BACKUP + date);
    OtherProjectsAcceptedIff(p, q, FullBackup, t, encrypted, size, modTime);
  }

  function AfterYear(d: Date): string {
    Pad(d.month, 2) + "-" + Pad(d.day, 2)
  }

  lemma DateSplits(d: Date)
    requires NoSpace(FormatDate(d))
    ensures FormatDate(d) == YearText(d.year) + "-" + AfterYear(d)
    ensures NoSpace(AfterYear(d))
  {
    hide Pad, YearText;
    var date, rest, k := FormatDate(d), AfterYear(d), |YearText(d.year)| + 1;
    assert date == YearText(d.year) + "-" + rest;
    forall i | 0 <= i < |rest| ensures rest[i] !in " \t\n\r\U{C}" {
      assert rest[i] == date[i + k];
    }
  }

  lemma CutBody(q: string, t: nat, year: string, rest: string)
    requires FormatDate(DateOf(DayOf(t))) == year + "-" + rest
    ensures Body(q, FullBackup, t) == q + BACKUP + year + "-" + rest
  {
    hide FormatDate, DateOf;
  }

  /** So are those of a project whose name together with a year is this one's. */
  lemma CutDateIsAccepted(q: string, t: nat, encrypted: bool, size: nat, modTime: nat)
    ensures var p := q + BACKUP + YearText(DateOf(DayOf(t)).year);
            ClassifyFile(p, FullFilename(q, t, encrypted), size, modTime).Some?
  {
    hide ClassifyFile, Starts, DateOf, Body;
    var year, rest := YearText(DateOf(DayOf(t)).year), AfterYear(DateOf(DayOf(t)));
    DateHasNoSpace(t);
    DateSplits(DateOf(DayOf(t)));
    StartsWith(q + BACKUP + year, "-", rest);
    CutBody(q, t, year, rest);
    OtherProjectsAcceptedIff(q + BACKUP + year, q, FullBackup, t, encrypted, size, modTime);
  }
}
