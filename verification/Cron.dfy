/** Cron schedules of src/scheduler/cron.go, evaluated in UTC. */
module Cron {
  import opened Results
  import opened Text
  import opened Calendar

  /** What a field admits; a step counts from the least value of the field. */
  datatype Matcher = Any | Every(step: Positive, min: nat) | OneOf(values: set<int>)

  type Positive = n: nat | n > 0 witness 1

  datatype FieldError = InvalidStep(field: string) | InvalidValue(part: string)

  datatype CronError = WrongFieldCount(count: nat) | BadField(index: nat, cause: FieldError)

  datatype Schedule =
    | Interval(every: Positive)
    | Fields(minute: Matcher, hour: Matcher, dom: Matcher, month: Matcher, dow: Matcher)

  predicate Admits(m: Matcher, v: int) {
    match m
    case Any => true
    case Every(step, min) => (v - min) % step == 0
    case OneOf(values) => v in values
  }

  // ----- Parsing

  /** The value of one part of a list field. */
  function PartValue(part: string, min: nat, max: nat): Option<int> {
    match Atoi(TrimSpace(part))
    case Some(n) => if min <= n <= max then Some(n) else None
    case None => None
  }

  function PartValues(parts: seq<string>, min: nat, max: nat): Result<set<int>, FieldError> {
    if parts == [] then Ok({})
    else
      var front :- PartValues(parts[..|parts| - 1], min, max);
      match PartValue(parts[|parts| - 1], min, max)
      case Some(n) => Ok(front + {n})
      case None => Err(InvalidValue(parts[|parts| - 1]))
  }

  function Field(field: string, min: nat, max: nat): Result<Matcher, FieldError> {
    if field == "*" then Ok(Any)
    else if HasPrefix(field, "*/") then
      match Atoi(field[2..])
      case Some(step) => if step > 0 then Ok(Every(step, min)) else Err(InvalidStep(field))
      case None => Err(InvalidStep(field))
    else
      var values :- PartValues(Split(field, ','), min, max);
      Ok(OneOf(values))
  }

  method ParseField(field: string, min: nat, max: nat) returns (r: Result<Matcher, FieldError>)
    ensures r == Field(field, min, max)
  {
    hide PartValue, Split, Atoi;
    if field == "*" {
      return Ok(Any);
    }
    if HasPrefix(field, "*/") {
      var step := Atoi(field[2..]);
      if step.None? || step.value <= 0 {
        return Err(InvalidStep(field));
      }
      return Ok(Every(step.value, min));
    }
    var parts := Split(field, ',');
    var values: set<int> := {};
    for i := 0 to |parts|
      invariant PartValues(parts[..i], min, max) == Ok(values)
    {
      var n := PartValue(parts[i], min, max);
      assert parts[..i + 1][..i] == parts[..i];
      if n.None? {
        FirstBadPart(parts, i + 1, min, max);
        return Err(InvalidValue(parts[i]));
      }
      values := values + {n.value};
    }
    assert parts[..|parts|] == parts;
    return Ok(OneOf(values));
  }

  lemma {:induction false} FirstBadPart(parts: seq<string>, i: nat, min: nat, max: nat)
    requires i <= |parts| && PartValues(parts[..i], min, max).Err?
    ensures PartValues(parts, min, max) == PartValues(parts[..i], min, max)
    decreases |parts| - i
  {
    hide PartValue;
    if i < |parts| {
      assert parts[..i + 1][..i] == parts[..i];
      FirstBadPart(parts, i + 1, min, max);
    } else {
      assert parts[..i] == parts;
    }
  }

  function At(index: nat, r: Result<Matcher, FieldError>): Result<Matcher, CronError> {
    match r
    case Ok(m) => Ok(m)
    case Err(e) => Err(BadField(index, e))
  }

  function ParseCron(expr: string): Result<Schedule, CronError> {
    var fields := Text.Fields(expr);
    if |fields| != 5 then Err(WrongFieldCount(|fields|))
    else
      var minute :- At(0, Field(fields[0], 0, 59));
      var hour :- At(1, Field(fields[1], 0, 23));
      var dom :- At(2, Field(fields[2], 1, 31));
      var month :- At(3, Field(fields[3], 1, 12));
      var dow :- At(4, Field(fields[4], 0, 7));
      Ok(Fields(minute, hour, dom, month, dow))
  }

  /** A matcher that a field with the given range can have. */
  predicate FieldOK(m: Matcher, min: nat, max: nat) {
    match m
    case Any => true
    case Every(_, from) => from == min
    case OneOf(values) => (exists v :: v in values) && forall v | v in values :: min <= v <= max
  }

  predicate ScheduleOK(s: Schedule) {
    match s
    case Interval(_) => true
    case Fields(minute, hour, dom, month, dow) =>
      FieldOK(minute, 0, 59) && FieldOK(hour, 0, 23) && FieldOK(dom, 1, 31) && FieldOK(month, 1, 12) && FieldOK(dow, 0, 7)
  }

  lemma {:induction false} PartsInRange(parts: seq<string>, min: nat, max: nat)
    requires PartValues(parts, min, max).Ok?
    ensures parts != [] ==> exists v :: v in PartValues(parts, min, max).value
    ensures forall v | v in PartValues(parts, min, max).value :: min <= v <= max
  {
    hide TrimSpace, Atoi;
    if parts != [] {
      PartsInRange(parts[..|parts| - 1], min, max);
      assert PartValue(parts[|parts| - 1], min, max).value in PartValues(parts, min, max).value;
    }
  }

  lemma FieldIsOK(field: string, min: nat, max: nat)
    requires Field(field, min, max).Ok?
    ensures FieldOK(Field(field, min, max).value, min, max)
  {
    hide PartValues, Atoi;
    if field != "*" && !HasPrefix(field, "*/") {
      PartsInRange(Split(field, ','), min, max);
    }
  }

  /** A parsed expression has five fields, each of which admits some value of its range and no other. */
  lemma ParsedIsOK(expr: string)
    requires ParseCron(expr).Ok?
    ensures ScheduleOK(ParseCron(expr).value) && ParseCron(expr).value.Fields?
  {
    hide Field, FieldOK;
    var fields := Text.Fields(expr);
    FieldIsOK(fields[0], 0, 59);
    FieldIsOK(fields[1], 0, 23);
    FieldIsOK(fields[2], 1, 31);
    FieldIsOK(fields[3], 1, 12);
    FieldIsOK(fields[4], 0, 7);
  }

  // ----- The next run

  const MAX_LOOKAHEAD: nat := 4 * 366 * DAY

  /** 0 and 7 both stand for Sunday. */
  predicate DowMatches(m: Matcher, weekday: nat) {
    Admits(m, weekday) || (weekday == 0 && Admits(m, 7))
  }

  /** The schedule fires in the minute that starts at `t`. */
  predicate Fires(s: Schedule, t: nat)
    requires s.Fields?
  {
    var date := DateOf(DayOf(t));
    Admits(s.month, date.month) && Admits(s.dom, date.day) && DowMatches(s.dow, Weekday(DayOf(t))) &&
    Admits(s.hour, HourOf(t)) && Admits(s.minute, MinuteOf(t))
  }

  /** A start of a minute after `after` and within the lookahead. */
  predicate InWindow(after: nat, t: nat) {
    t % MINUTE == 0 && after < t < after + MAX_LOOKAHEAD
  }

  /** The schedule does not fire in the window before `t`. */
  ghost predicate NoneBefore(s: Schedule, after: nat, t: nat)
    requires s.Fields?
  {
    forall u: nat | InWindow(after, u) && u < t :: !Fires(s, u)
  }

  /** The first instant of the window at which the schedule fires. */
  ghost predicate IsNext(s: Schedule, after: nat, t: nat)
    requires s.Fields?
  {
    InWindow(after, t) && Fires(s, t) && NoneBefore(s, after, t)
  }

  /** Some instant of the window is one at which the schedule fires. */
  ghost predicate FiresInWindow(s: Schedule, after: nat)
    requires s.Fields?
  {
    exists t: nat :: InWindow(after, t) && Fires(s, t)
  }

  method Next(s: Schedule, after: nat) returns (r: Option<nat>)
    ensures s.Interval? ==> r == Some(after + s.every)
    ensures s.Fields? && r.Some? ==> IsNext(s, after, r.value)
    ensures s.Fields? ==> (r.None? <==> !FiresInWindow(s, after))
    ensures r.Some? ==> r.value > after
  {
    if s.Interval? {
      return Some(after + s.every);
    }
    hide Fires;
    var t := after - after % MINUTE + MINUTE;
    var deadline := after + MAX_LOOKAHEAD;
    FirstMinute(s, after);
    while t < deadline
      invariant t % MINUTE == 0 && after < t
      invariant NoneBefore(s, after, t)
    {
      if Fires(s, t) {
        return Some(t);
      }
      StepOver(s, after, t);
      t := t + MINUTE;
    }
    return None;
  }

  /** The first start of a minute after an instant. */
  lemma FirstMinute(s: Schedule, after: nat)
    requires s.Fields?
    ensures (after - after % MINUTE + MINUTE) % MINUTE == 0
    ensures NoneBefore(s, after, after - after % MINUTE + MINUTE)
  {
    hide Fires;
    var q := after / MINUTE;
    DivMod(q + 1, 0, MINUTE);
    forall u: nat | u % MINUTE == 0 && u > after ensures u >= after - after % MINUTE + MINUTE {
      Multiples(q + 1, u / MINUTE, MINUTE);
    }
  }

  lemma StepOver(s: Schedule, after: nat, t: nat)
    requires s.Fields? && t % MINUTE == 0 && NoneBefore(s, after, t) && !Fires(s, t)
    ensures NoneBefore(s, after, t + MINUTE) && (t + MINUTE) % MINUTE == 0
  {
    hide Fires;
    forall u: nat | InWindow(after, u) && u < t + MINUTE ensures !Fires(s, u) {
      if u >= t {
        OneMinuteApart(t, u);
      }
    }
  }

  lemma OneMinuteApart(t: nat, u: nat)
    requires t % MINUTE == 0 && u % MINUTE == 0 && t <= u < t + MINUTE
    ensures t == u
  {}

  // ----- Schedules that always have a next run

  /** A parsed field admits some value of its range. */
  lemma AdmitsSome(m: Matcher, min: nat, max: nat) returns (v: nat)
    requires FieldOK(m, min, max) && min <= max
    ensures min <= v <= max && Admits(m, v)
  {
    match m {
      case Any => v := min;
      case Every(step, _) =>
        v := min;
        assert (v - min) % step == 0;
      case OneOf(values) =>
        var x :| x in values;
        v := x;
    }
  }

  /** A day after the day of `after` that lies within the lookahead at every hour. */
  predicate Soon(after: nat, day: nat) {
    DayOf(after) < day < DayOf(after) + 4 * 366
  }

  lemma SoonIsInWindow(after: nat, day: nat, hour: nat, minute: nat)
    requires Soon(after, day) && hour < 24 && minute < 60
    ensures InWindow(after, Instant(day, hour, minute))
  {
    PartsOfInstant(day, hour, minute);
    Multiples(DayOf(after) + 1, day, DAY);
    Multiples(day + 1, DayOf(after) + 4 * 366, DAY);
  }

  /** The date fields admit the day. */
  predicate MatchesDay(s: Schedule, day: nat)
    requires s.Fields?
  {
    Admits(s.month, DateOf(day).month) && Admits(s.dom, DateOf(day).day) && DowMatches(s.dow, Weekday(day))
  }

  /** The first day of the window, or the last, of which only some hours are in it. */
  predicate IsEdge(after: nat, day: nat) {
    day == DayOf(after) || day == DayOf(after) + 4 * 366
  }

  /** An admitted hour and minute of the day lie in the window. */
  ghost predicate HasTime(s: Schedule, after: nat, day: nat)
    requires s.Fields?
  {
    exists hour: nat, minute: nat ::
      hour < 24 && minute < 60 && Admits(s.hour, hour) && Admits(s.minute, minute) && InWindow(after, Instant(day, hour, minute))
  }

  lemma FiresIff(s: Schedule, t: nat)
    requires s.Fields?
    ensures Fires(s, t) <==> MatchesDay(s, DayOf(t)) && Admits(s.hour, HourOf(t)) && Admits(s.minute, MinuteOf(t))
  {}

  lemma FiresHasTime(s: Schedule, after: nat, t: nat)
    requires s.Fields? && InWindow(after, t) && Fires(s, t)
    ensures MatchesDay(s, DayOf(t)) && HasTime(s, after, DayOf(t))
  {
    hide DateOf, Weekday, Admits, Instant;
    FiresIff(s, t);
    InstantOfParts(t);
  }

  lemma TimeFires(s: Schedule, after: nat, day: nat) returns (t: nat)
    requires s.Fields? && MatchesDay(s, day) && HasTime(s, after, day)
    ensures InWindow(after, t) && Fires(s, t) && DayOf(t) == day
  {
    hide DateOf, Weekday, Admits, InWindow, Instant;
    var hour: nat, minute: nat :|
      hour < 24 && minute < 60 && Admits(s.hour, hour) && Admits(s.minute, minute) && InWindow(after, Instant(day, hour, minute));
    t := Instant(day, hour, minute);
    PartsOfInstant(day, hour, minute);
    FiresIff(s, t);
  }

  /**
   A schedule has a next run exactly when its date fields admit a day that lies in the window
   as a whole, or one at its edge of which an admitted time does.
   */
  lemma NextRunIff(s: Schedule, after: nat)
    requires s.Fields? && ScheduleOK(s)
    ensures FiresInWindow(s, after) <==>
            exists day: nat :: MatchesDay(s, day) && (Soon(after, day) || (IsEdge(after, day) && HasTime(s, after, day)))
  {
    hide MatchesDay, HasTime, Fires, InWindow;
    if FiresInWindow(s, after) {
      var t: nat :| InWindow(after, t) && Fires(s, t);
      FiresHasTime(s, after, t);
      DaysOfWindow(after, t);
      assert MatchesDay(s, DayOf(t)) && (Soon(after, DayOf(t)) || (IsEdge(after, DayOf(t)) && HasTime(s, after, DayOf(t))));
    }
    if day: nat :| MatchesDay(s, day) && (Soon(after, day) || (IsEdge(after, day) && HasTime(s, after, day))) {
      if Soon(after, day) {
        SoonHasTime(s, after, day);
      }
      var t := TimeFires(s, after, day);
    }
  }

  lemma DaysOfWindow(after: nat, t: nat)
    requires InWindow(after, t)
    ensures DayOf(after) <= DayOf(t) <= DayOf(after) + 4 * 366
  {}

  lemma SoonHasTime(s: Schedule, after: nat, day: nat)
    requires s.Fields? && ScheduleOK(s) && Soon(after, day)
    ensures HasTime(s, after, day)
  {
    hide Instant, Admits, FieldOK, InWindow, Soon;
    var hour := AdmitsSome(s.hour, 0, 23);
    var minute := AdmitsSome(s.minute, 0, 59);
    SoonIsInWindow(after, day, hour, minute);
  }

  lemma FiresOnDay(s: Schedule, after: nat, day: nat)
    requires s.Fields? && ScheduleOK(s) && Soon(after, day) && MatchesDay(s, day)
    ensures FiresInWindow(s, after)
  {
    hide MatchesDay, HasTime, Fires, InWindow;
    NextRunIff(s, after);
  }

  /** A date that every year has comes round from any instant. */
  lemma DateComesRound(after: nat, m: nat, d: nat) returns (day: nat)
    requires 1 <= m <= 12 && 1 <= d <= DaysInMonth(1, m)
    ensures Soon(after, day) && DateOf(day).month == m && DateOf(day).day == d
  {
    hide DateOf, MonthStart, DayOf;
    var today := DateOf(DayOf(after));
    var date := Date(today.year + 1, m, d);
    DateOfDayNumber(date);
    DayIsInItsYear(today);
    DayIsInItsYear(date);
    day := DayNumber(date);
  }

  /** The schedule admits a date that every year has. */
  ghost predicate AdmitsCommonDate(s: Schedule)
    requires s.Fields?
  {
    exists m: nat, d: nat :: 1 <= m <= 12 && 1 <= d <= DaysInMonth(1, m) && Admits(s.month, m) && Admits(s.dom, d)
  }

  predicate IsLeapDay(day: nat) {
    DateOf(day).month == 2 && DateOf(day).day == 29
  }

  predicate AdmitsLeapDay(s: Schedule)
    requires s.Fields?
  {
    Admits(s.month, 2) && Admits(s.dom, 29)
  }

  /** Within the window the schedule fires on a 29 February. */
  ghost predicate FiresOnLeapDay(s: Schedule, after: nat)
    requires s.Fields?
  {
    exists t: nat :: InWindow(after, t) && Fires(s, t) && IsLeapDay(DayOf(t))
  }

  /** The number of 29 February, in a leap year. */
  function LeapDay(y: nat): nat {
    YearStart(y) + 59
  }

  lemma LeapDayIff(day: nat, y: nat)
    requires y >= 1 && YearStart(y) <= day < YearStart(y + 1)
    ensures IsLeapDay(day) <==> IsLeap(y) && day == LeapDay(y)
  {
    hide DateOf, YearStart;
    var date := DateOf(day);
    DayIsInItsYear(date);
    if date.year < y {
      YearsGrow(date.year, y);
    } else if date.year > y + 1 {
      YearsGrow(y + 1, date.year);
    }
    assert date.year == y;
    assert MonthStart(y, 2) == 31;
    if IsLeap(y) && day == LeapDay(y) {
      DayNumberInjective(date, Date(y, 2, 29));
    }
  }

  /** From the year `c - 4` on, the leap days about a century year that is no leap year. */
  lemma AboutCentury(c: nat)
    requires c > 4 && c % 100 == 0 && c % 400 != 0
    ensures LeapDay(c) == LeapDay(c - 4) + 1461 && LeapDay(c + 4) == LeapDay(c) + 1460
    ensures IsLeap(c - 4) && !IsLeap(c) && IsLeap(c + 4)
  {
    DaysOfFourYears(c - 4);
    DaysOfFourYears(c);
    LeapYearsAboutCentury(c);
  }

  lemma DaysOfFourYears(y: nat)
    requires y >= 1
    ensures YearStart(y + 4) == YearStart(y) + DaysInYear(y) + DaysInYear(y + 1) + DaysInYear(y + 2) + DaysInYear(y + 3)
  {
    hide DaysInYear;
    assert YearStart(y + 2) == YearStart(y) + DaysInYear(y) + DaysInYear(y + 1);
  }

  lemma LeapYearsAboutCentury(c: nat)
    requires c > 4 && c % 100 == 0 && c % 400 != 0
    ensures IsLeap(c - 4) && !IsLeap(c - 3) && !IsLeap(c - 2) && !IsLeap(c - 1)
    ensures !IsLeap(c) && !IsLeap(c + 1) && !IsLeap(c + 2) && !IsLeap(c + 3) && IsLeap(c + 4)
  {
    var q := c / 100;
    assert c % 4 == 0 by { DivMod(25 * q, 0, 4); }
    DivMod(q - 1, 96, 100);
    DivMod(q, 4, 100);
  }

  /** The days from 29 February of `c - 4` to 25 February of a century year `c` that is no leap year. */
  predicate BeforeCentury(day: nat, c: nat) {
    c > 4 && c % 100 == 0 && c % 400 != 0 && LeapDay(c - 4) <= day <= LeapDay(c) - 4
  }

  /**
   The lookahead from such a day has no 29 February at which the schedule fires: none lies
   within it, except at its edges, and there no admitted time does.
   */
  ghost predicate Skips(s: Schedule, after: nat, c: nat)
    requires s.Fields?
  {
    BeforeCentury(DayOf(after), c) &&
    (DayOf(after) == LeapDay(c - 4) ==> !HasTime(s, after, LeapDay(c - 4))) &&
    (DayOf(after) == LeapDay(c) - 4 ==> !HasTime(s, after, LeapDay(c + 4)))
  }

  /** A schedule that admits 29 February fires on one in the window exactly when no century year is skipped. */
  lemma FiresOnLeapDayIff(s: Schedule, after: nat)
    requires s.Fields? && ScheduleOK(s) && s.dow == Any && AdmitsLeapDay(s)
    ensures FiresOnLeapDay(s, after) <==> forall c: nat :: !Skips(s, after, c)
  {
    hide FiresOnLeapDay, BeforeCentury, HasTime, ScheduleOK, LeapDay;
    if c: nat :| Skips(s, after, c) {
      SkipsAll(s, after, c);
    } else if c: nat :| BeforeCentury(DayOf(after), c) {
      EdgeFires(s, after, c);
    } else {
      var y := LeapDayComesRound(after);
      LeapDaySoon(s, after, y);
    }
  }

  lemma SkipsAll(s: Schedule, after: nat, c: nat)
    requires s.Fields? && Skips(s, after, c)
    ensures !FiresOnLeapDay(s, after)
  {
    hide DateOf, Fires, YearStart, IsLeapDay, HasTime, InWindow, LeapDay;
    AboutCentury(c);
    forall t: nat | InWindow(after, t) && Fires(s, t) ensures !IsLeapDay(DayOf(t)) {
      DaysOfWindow(after, t);
      FiresHasTime(s, after, t);
      if LeapDay(c - 4) < DayOf(t) < LeapDay(c + 4) {
        NoLeapDayBetween(DayOf(t), c);
      }
    }
  }

  lemma EdgeFires(s: Schedule, after: nat, c: nat)
    requires s.Fields? && s.dow == Any && AdmitsLeapDay(s) && BeforeCentury(DayOf(after), c) && !Skips(s, after, c)
    ensures FiresOnLeapDay(s, after)
  {
    hide DateOf, Fires, YearStart, HasTime, InWindow, Admits, MatchesDay, AdmitsLeapDay, LeapDay;
    AboutCentury(c);
    var y := if DayOf(after) == LeapDay(c - 4) && HasTime(s, after, LeapDay(c - 4)) then c - 4 else c + 4;
    LeapDayMatches(s, y);
    var t := TimeFires(s, after, LeapDay(y));
  }

  lemma LeapDayMatches(s: Schedule, y: nat)
    requires s.Fields? && s.dow == Any && AdmitsLeapDay(s) && y >= 1 && IsLeap(y)
    ensures IsLeapDay(LeapDay(y)) && MatchesDay(s, LeapDay(y))
  {
    hide DateOf, YearStart, Admits;
    NextYear(y);
    LeapDayIff(LeapDay(y), y);
    AnyAdmits(Weekday(LeapDay(y)));
  }

  /**
   A schedule without a day-of-week restriction has a next run from an instant exactly when
   it admits a date that every year has, or 29 February and no century year is skipped.
   */
  lemma CalendarRunsIff(s: Schedule, after: nat)
    requires s.Fields? && ScheduleOK(s) && s.dow == Any
    ensures FiresInWindow(s, after) <==>
            AdmitsCommonDate(s) || (AdmitsLeapDay(s) && forall c: nat :: !Skips(s, after, c))
  {
    hide DateOf, FieldOK, Admits, InWindow, Skips;
    if AdmitsCommonDate(s) {
      var m: nat, d: nat :| 1 <= m <= 12 && 1 <= d <= DaysInMonth(1, m) && Admits(s.month, m) && Admits(s.dom, d);
      var day := DateComesRound(after, m, d);
      AnyAdmits(Weekday(day));
      FiresOnDay(s, after, day);
    } else {
      OnlyOnLeapDays(s, after);
      if AdmitsLeapDay(s) {
        FiresOnLeapDayIff(s, after);
      }
    }
  }

  lemma OnlyOnLeapDays(s: Schedule, after: nat)
    requires s.Fields? && !AdmitsCommonDate(s)
    ensures FiresInWindow(s, after) <==> FiresOnLeapDay(s, after)
    ensures FiresInWindow(s, after) ==> AdmitsLeapDay(s)
  {
    hide DateOf, Admits, InWindow;
    forall t: nat | Fires(s, t) ensures IsLeapDay(DayOf(t)) && AdmitsLeapDay(s) {
      OnLeapDay(s, t);
    }
  }

  lemma OnLeapDay(s: Schedule, t: nat)
    requires s.Fields? && !AdmitsCommonDate(s) && Fires(s, t)
    ensures IsLeapDay(DayOf(t)) && AdmitsLeapDay(s)
  {
    hide DateOf, Admits;
    var date := DateOf(DayOf(t));
    assert ValidDate(date) && Admits(s.month, date.month) && Admits(s.dom, date.day);
  }

  /** A schedule for 29 February only has no next run from 1 March of `c - 4` to 24 February of such a century year. */
  lemma LeapDayScheduleIsSkipped(s: Schedule, after: nat, c: nat)
    requires s.Fields? && !AdmitsCommonDate(s)
    requires BeforeCentury(DayOf(after), c) && LeapDay(c - 4) < DayOf(after) < LeapDay(c) - 4
    ensures !FiresInWindow(s, after)
  {
    hide LeapDay, FiresInWindow, AdmitsCommonDate;
    OnlyOnLeapDays(s, after);
    SkipsAll(s, after, c);
  }

  /** At some later instant, however far away, the schedule fires. */
  ghost predicate FiresLater(s: Schedule, after: nat)
    requires s.Fields?
  {
    exists t: nat :: t > after && t % MINUTE == 0 && Fires(s, t)
  }

  /** The search misses a date that does exist exactly when that is 29 February alone and a century year is skipped. */
  lemma MissesIff(s: Schedule, after: nat)
    requires s.Fields? && ScheduleOK(s) && s.dow == Any
    ensures FiresLater(s, after) && !FiresInWindow(s, after) <==>
            !AdmitsCommonDate(s) && AdmitsLeapDay(s) && exists c: nat :: Skips(s, after, c)
  {
    hide Fires, Skips, AdmitsCommonDate, AdmitsLeapDay, ScheduleOK, InWindow;
    CalendarRunsIff(s, after);
    if AdmitsLeapDay(s) {
      SomeLeapDay(s, after);
    }
    if FiresLater(s, after) && !AdmitsCommonDate(s) {
      var t: nat :| t > after && t % MINUTE == 0 && Fires(s, t);
      OnLeapDay(s, t);
    }
  }

  lemma SomeLeapDay(s: Schedule, after: nat)
    requires s.Fields? && ScheduleOK(s) && s.dow == Any && AdmitsLeapDay(s)
    ensures FiresLater(s, after)
  {
    hide DateOf, YearStart, Admits, FieldOK, AdmitsLeapDay, MatchesDay, Instant;
    var date := DateOf(DayOf(after));
    var y := 400 * (date.year + 1);
    assert y % 400 == 0 by { DivMod(date.year + 1, 0, 400); }
    DayIsInItsYear(date);
    YearsGrow(date.year, y);
    var day := LeapDay(y);
    LeapDayMatches(s, y);
    DayFiresLater(s, after, day);
  }

  lemma LaterDay(a: nat, b: nat)
    requires DayOf(a) < DayOf(b)
    ensures a < b
  {}

  lemma LeapDayComesRound(after: nat) returns (y: nat)
    requires forall c: nat :: !BeforeCentury(DayOf(after), c)
    ensures y >= 1 && IsLeap(y) && Soon(after, LeapDay(y))
  {
    hide DateOf, YearStart, MonthStart;
    var day := DayOf(after);
    var date := DateOf(day);
    DayIsInItsYear(date);
    y := NextFourth(day, date.year);
    if !IsLeap(y) {
      AboutCentury(y);
      assert !BeforeCentury(day, y);
      y := y + 4;
    }
  }

  /** The next year after a day whose 29 February only a century can take away. */
  lemma NextFourth(day: nat, y: nat) returns (z: nat)
    requires y >= 1 && YearStart(y) <= day < YearStart(y) + DaysInYear(y)
    ensures z >= 4 && day < LeapDay(z) <= day + 1461
    ensures IsLeap(z) || (z % 100 == 0 && z % 400 != 0)
  {
    hide DaysInYear, IsLeap, YearStart;
    z := y - y % 4 + 4;
    DaysAtMost(y);
    Fourth(if y % 4 == 0 && day < LeapDay(y) then y else z);
    if y % 4 == 0 && day < LeapDay(y) {
      z := y;
    } else if y % 4 == 0 {
      DaysOfFourYears(y);
      DaysAtMost(y + 1);
      DaysAtMost(y + 2);
      DaysAtMost(y + 3);
    } else {
      NextYear(y);
      NextYear(y + 1);
      NextYear(y + 2);
      DaysAtMost(y + 1);
      DaysAtMost(y + 2);
    }
  }

  lemma Fourth(z: nat)
    requires z % 4 == 0
    ensures IsLeap(z) || (z % 100 == 0 && z % 400 != 0)
  {}

  lemma DaysAtMost(y: nat)
    ensures 365 <= DaysInYear(y) <= 366 && (y % 4 != 0 ==> DaysInYear(y) == 365)
  {
    Divisors(y);
  }

  lemma NoLeapDayBetween(day: nat, c: nat)
    requires c > 4 && c % 100 == 0 && c % 400 != 0 && LeapDay(c - 4) < day < LeapDay(c + 4)
    ensures !IsLeapDay(day)
  {
    hide DateOf, YearStart, DaysInYear;
    var date := DateOf(day);
    DayIsInItsYear(date);
    var y := date.year;
    NextYear(y);
    LeapDayIff(day, y);
    LeapYearsAboutCentury(c);
    if IsLeapDay(day) {
      if y < c - 4 {
        YearsGrow(y, c - 4);
      } else if y > c + 4 {
        YearsGrow(c + 4, y);
      }
    }
  }

  lemma NextYear(y: nat)
    requires y >= 1
    ensures YearStart(y + 1) == YearStart(y) + DaysInYear(y)
  {}

  lemma LeapDaySoon(s: Schedule, after: nat, y: nat)
    requires s.Fields? && ScheduleOK(s) && s.dow == Any && AdmitsLeapDay(s)
    requires IsLeap(y) && y >= 1 && Soon(after, LeapDay(y))
    ensures FiresOnLeapDay(s, after)
  {
    hide DateOf, Instant, Admits, ScheduleOK, InWindow, MatchesDay, HasTime, Fires, LeapDay;
    LeapDayMatches(s, y);
    SoonHasTime(s, after, LeapDay(y));
    var t := TimeFires(s, after, LeapDay(y));
  }

  /** A schedule without a restriction on the month always has a next run, whatever days it asks for. */
  lemma MonthlySchedulesRun(s: Schedule, after: nat)
    requires s.Fields? && ScheduleOK(s) && s.month == Any
    ensures FiresInWindow(s, after)
  {
    hide DateOf, FieldOK, Weekday, Admits, DowMatches, DayOf;
    var w := DowMatchesSome(s.dow);
    var d := AdmitsSome(s.dom, 1, 31);
    var day := DayAndWeekdayComeRound(after, d, w);
    AnyAdmits(DateOf(day).month);
    FiresOnDay(s, after, day);
  }

  lemma DowMatchesSome(m: Matcher) returns (w: nat)
    requires FieldOK(m, 0, 7)
    ensures w < 7 && DowMatches(m, w)
  {
    w := AdmitsSome(m, 0, 7);
    if w == 7 {
      w := 0;
    }
  }

  /** Every weekday falls on every day of the month within the lookahead. */
  lemma DayAndWeekdayComeRound(after: nat, d: nat, w: nat) returns (day: nat)
    requires 1 <= d <= 31 && w < 7
    ensures Soon(after, day) && DateOf(day).day == d && Weekday(day) == w
  {
    hide DateOf, DayOf, Weekday, MonthStart, YearStart, DaysInMonth, DaysInYear;
    var today := DateOf(DayOf(after));
    DayIsInItsYear(today);
    var y := today.year;
    NextYear(y);
    NextYear(y + 1);
    NextYear(y + 2);
    DaysAtMost(y);
    DaysAtMost(y + 1);
    DaysAtMost(y + 2);
    var date := Date(y + 1, MonthFor(y + 1, d, w), d);
    if d == 31 && DaysInMonth(y + 1, date.month) < 31 {
      OneOfTwoYears(y + 1, w);
      date := Date(y + 2, MonthFor(y + 2, d, w), d);
    } else {
      MonthForFits(y + 1, d, w);
    }
    MonthForIs(date.year, d, w);
    DateOfDayNumber(date);
    DayIsInItsYear(date);
    day := DayNumber(date);
  }

  /** A month of the year whose day `d` is a weekday `w`, as long as it has that many days. */
  function MonthFor(y: nat, d: nat, w: nat): (m: nat)
    ensures 1 <= m <= 12 && m != 2
  {
    var k := (w + 6 * (YearStart(y) + d)) % 7;
    if IsLeap(y) then [1, 10, 5, 8, 3, 6, 12][k] else [1, 5, 8, 3, 6, 12, 7][k]
  }

  lemma MonthStarts(y: nat)
    ensures forall m: nat | 1 <= m <= 12 ::
              MonthStart(y, m) == [0, 31, 59, 90, 120, 151, 181, 212, 243, 273, 304, 334][m - 1] + if m > 2 && IsLeap(y) then 1 else 0
  {
    var leap := if IsLeap(y) then 1 else 0;
    assert MonthStart(y, 2) == 31;
    assert MonthStart(y, 3) == 59 + leap;
    assert MonthStart(y, 4) == 90 + leap;
    assert MonthStart(y, 5) == 120 + leap;
    assert MonthStart(y, 6) == 151 + leap;
    assert MonthStart(y, 7) == 181 + leap;
    assert MonthStart(y, 8) == 212 + leap;
    assert MonthStart(y, 9) == 243 + leap;
    assert MonthStart(y, 10) == 273 + leap;
    assert MonthStart(y, 11) == 304 + leap;
    assert MonthStart(y, 12) == 334 + leap;
  }

  lemma MonthForIs(y: nat, d: nat, w: nat)
    requires w < 7 && y >= 1 && 1 <= d <= DaysInMonth(y, MonthFor(y, d, w))
    ensures Weekday(DayNumber(Date(y, MonthFor(y, d, w), d))) == w
  {
    hide YearStart, MonthStart, IsLeap;
    MonthStarts(y);
    var k := (w + 6 * (YearStart(y) + d)) % 7;
    var m := MonthFor(y, d, w);
    assert MonthStart(y, m) % 7 == k;
    WeekdaySum(YearStart(y) + d, MonthStart(y, m), w);
  }

  lemma WeekdaySum(a: nat, b: nat, w: nat)
    requires w < 7 && b % 7 == (w + 6 * a) % 7
    ensures (a + b) % 7 == w
  {}

  lemma MonthForFits(y: nat, d: nat, w: nat)
    ensures DaysInMonth(y, MonthFor(y, d, w)) >= 30
  {
    hide YearStart;
  }

  /** A weekday that no month of a year ends with on the 31st, some month of the next does. */
  lemma OneOfTwoYears(y: nat, w: nat)
    requires y >= 1 && w < 7 && DaysInMonth(y, MonthFor(y, 31, w)) < 31
    ensures DaysInMonth(y + 1, MonthFor(y + 1, 31, w)) == 31
  {
    hide YearStart, IsLeap;
    NextYear(y);
    LeapIsAlone(y);
    YearLater(YearStart(y), 31, w);
    LongMonthUnless(y, w);
    LongMonthUnless(y + 1, w);
  }

  lemma LeapIsAlone(y: nat)
    ensures !IsLeap(y) || !IsLeap(y + 1)
  {
    Divisors(y);
    Divisors(y + 1);
  }

  lemma YearLater(a: nat, d: nat, w: nat)
    ensures (w + 6 * (a + 365 + d)) % 7 == ((w + 6 * (a + d)) % 7 + 6) % 7
    ensures (w + 6 * (a + 366 + d)) % 7 == ((w + 6 * (a + d)) % 7 + 5) % 7
  {}

  lemma LongMonthUnless(y: nat, w: nat)
    ensures DaysInMonth(y, MonthFor(y, 31, w)) == 31 <==> (w + 6 * (YearStart(y) + 31)) % 7 != if IsLeap(y) then 5 else 4
    ensures DaysInMonth(y, MonthFor(y, 31, w)) <= 31
  {
    hide YearStart, IsLeap;
  }

  lemma AnyAdmits(v: int)
    ensures Admits(Any, v)
  {}

  // ----- A date and a weekday

  lemma NewYearIff(day: nat, y: nat)
    requires y >= 1 && YearStart(y) <= day < YearStart(y + 1)
    ensures DateOf(day).month == 1 && DateOf(day).day == 1 <==> day == YearStart(y)
  {
    hide DateOf, YearStart;
    var date := DateOf(day);
    DayIsInItsYear(date);
    if date.year < y {
      YearsGrow(date.year, y);
    } else if date.year > y + 1 {
      YearsGrow(y + 1, date.year);
    }
    assert MonthStart(y, 1) == 0;
    if day == YearStart(y) {
      DayNumberInjective(date, Date(y, 1, 1));
    }
  }

  /** The days on which the years from 2024 to 2030 begin; of these years only 2024 and 2029 begin on a Monday. */
  lemma NewYears()
    ensures YearStart(2024) == 738_885 && YearStart(2025) == 739_251 && YearStart(2026) == 739_616
    ensures YearStart(2027) == 739_981 && YearStart(2028) == 740_346 && YearStart(2029) == 740_712 && YearStart(2030) == 741_077
  {
    hide YearStart;
    YearStartIs(2024);
    YearStartIs(2025);
    YearStartIs(2026);
    YearStartIs(2027);
    YearStartIs(2028);
    YearStartIs(2029);
    YearStartIs(2030);
  }

  /**
   With a day of the week the search also misses dates that exist: from 2 January to 28
   December 2024 a schedule for a 1 January that is a Monday has no next run, and yet it fires
   on 1 January 2029.
   */
  lemma MondayNewYearIsMissed(s: Schedule, after: nat)
    requires s.Fields? && ScheduleOK(s) && s.month == OneOf({1}) && s.dom == OneOf({1}) && s.dow == OneOf({1})
    requires 738_886 <= DayOf(after) <= 739_247
    ensures !FiresInWindow(s, after) && FiresLater(s, after)
  {
    hide DateOf, YearStart, Fires, MatchesDay, ScheduleOK, Instant;
    NewYears();
    forall t: nat | InWindow(after, t) ensures !Fires(s, t) {
      DaysOfWindow(after, t);
      if Fires(s, t) {
        FiresIff(s, t);
        NoMondayNewYear(s, DayOf(t));
      }
    }
    NewYearIff(740_712, 2029);
    assert MatchesDay(s, 740_712) by {
      MondayNewYearMatches(s, 740_712);
    }
    DayFiresLater(s, after, 740_712);
  }

  lemma MondayNewYearMatches(s: Schedule, day: nat)
    requires s.Fields? && s.month == OneOf({1}) && s.dom == OneOf({1}) && s.dow == OneOf({1})
    ensures MatchesDay(s, day) <==> DateOf(day).month == 1 && DateOf(day).day == 1 && Weekday(day) == 1
  {
    hide DateOf;
  }

  lemma NoMondayNewYear(s: Schedule, day: nat)
    requires s.Fields? && s.month == OneOf({1}) && s.dom == OneOf({1}) && s.dow == OneOf({1})
    requires 738_886 <= day < 740_712
    ensures !MatchesDay(s, day)
  {
    hide DateOf, YearStart;
    NewYears();
    MondayNewYearMatches(s, day);
    var y := if day < 739_251 then 2024 else if day < 739_616 then 2025 else if day < 739_981 then 2026 else if day < 740_346 then 2027 else 2028;
    NewYearIff(day, y);
  }

  lemma DayFiresLater(s: Schedule, after: nat, day: nat)
    requires s.Fields? && ScheduleOK(s) && MatchesDay(s, day) && DayOf(after) < day
    ensures FiresLater(s, after)
  {
    hide MatchesDay, Admits, FieldOK, Instant;
    var hour := AdmitsSome(s.hour, 0, 23);
    var minute := AdmitsSome(s.minute, 0, 59);
    var t := Instant(day, hour, minute);
    PartsOfInstant(day, hour, minute);
    FiresIff(s, t);
    LaterDay(after, t);
  }

  /** A schedule that admits only days its months do not have never runs. */
  lemma ImpossibleDatesNeverRun(s: Schedule, after: nat)
    requires s.Fields? && s.month.OneOf? && s.dom.OneOf?
    requires forall y: nat, m: nat, d: nat | m in s.month.values && d in s.dom.values && 1 <= m <= 12 :: d > DaysInMonth(y, m)
    ensures !FiresInWindow(s, after)
  {
    forall t: nat | InWindow(after, t) ensures !Fires(s, t) {
      var date := DateOf(DayOf(t));
      assert date.day <= DaysInMonth(date.year, date.month);
    }
  }
}
