/**
 The names of rotated log files in src/logging/writer.go: the stem, a UTC stamp of the
 layout 20060102-150405, the extension, and ".gz" when compressed. Instants are up to the
 year 9999.
 */
module LogNames {
  import opened Results
  import opened Text
  import opened Calendar
  import opened Stamps

  const STAMP_LENGTH: nat := 15

  function FormatDay(d: Date): (s: string)
    ensures |s| == 8
  {
    Pad(d.year, 4) + Pad(d.month, 2) + Pad(d.day, 2)
  }

  function Format(t: nat): (s: string)
    ensures |s| == STAMP_LENGTH
  {
    FormatDay(DateOf(DayOf(t))) + "-" + FormatTime(t)
  }

  function RotatedName(base: string, ext: string, t: nat): string {
    base + "." + Format(t) + ext
  }

  /** The name of a file rotated at one moment, letter by letter. */
  lemma NameLooksLike()
    ensures RotatedName("access", ".log", SomeInstant()) == "access.20240305-131415.log"
  {
    hide Pad, DateOf, DayOf, SomeInstant, FormatTime;
    SomeInstantIs();
    Year2024();
    TwoDigits(3, '0', '3');
    TwoDigits(5, '0', '5');
  }

  // ----- Reading a stamp back

  function TrimPrefix(s: string, prefix: string): string {
    if HasPrefix(s, prefix) then s[|prefix|..] else s
  }

  function TrimSuffix(s: string, suffix: string): string {
    if |suffix| <= |s| && s[|s| - |suffix|..] == suffix then s[..|s| - |suffix|] else s
  }

  function ParseDay(s: string): Option<int>
    requires |s| == 8 && AllDigits(s)
  {
    var year, month, day := Value(s[..4]), Value(s[4..6]), Value(s[6..]);
    if ValidDay(year, month, day) then Some(CivilDay(year, month, day)) else None
  }

  /** time.Parse with the layout of the stamp. */
  function Parse(s: string): Option<int>
    requires |s| == STAMP_LENGTH
  {
    if AllDigits(s[..8]) && s[8] == '-' && AllDigits(s[9..]) then
      var day, time := ParseDay(s[..8]), ParseTime(s[9..]);
      if day.Some? && time.Some? then Some(day.value * DAY + time.value) else None
    else None
  }

  function ParseStamp(name: string, prefix: string, ext: string): Option<int> {
    var rest := TrimSuffix(TrimSuffix(TrimPrefix(name, prefix), ".gz"), ext);
    if |rest| < STAMP_LENGTH then None else Parse(rest[..STAMP_LENGTH])
  }

  lemma DayReadsBack(d: Date)
    requires ValidDate(d) && d.year <= 9999
    ensures AllDigits(FormatDay(d)) && ParseDay(FormatDay(d)) == Some(DayNumber(d))
  {
    DayDigits(d);
    hide FormatDay, Value, DayNumber;
  }

  lemma DayDigits(d: Date)
    requires ValidDate(d) && d.year <= 9999
    ensures var s := FormatDay(d); Value(s[..4]) == d.year && Value(s[4..6]) == d.month && Value(s[6..]) == d.day
  {
    hide Pad, Value;
    var s := FormatDay(d);
    assert s[..4] == Pad(d.year, 4) && s[4..6] == Pad(d.month, 2) && s[6..] == Pad(d.day, 2);
    assert Ten(2) == 100 && Ten(4) == 10_000;
    PadReadsBack(d.year, 4);
    PadReadsBack(d.month, 2);
    PadReadsBack(d.day, 2);
  }

  lemma StampReadsBack(t: nat)
    requires FourDigitYear(t)
    ensures Parse(Format(t)) == Some(t - t % SECOND)
  {
    hide FormatDay, FormatTime, ParseDay, ParseTime, AllDigits, DateOf, DayNumber;
    var day, time := FormatDay(DateOf(DayOf(t))), FormatTime(t);
    assert Format(t)[..8] == day && Format(t)[8] == '-' && Format(t)[9..] == time;
    FourDigits(t);
    DayReadsBack(DateOf(DayOf(t)));
    TimeReadsBack(t);
  }

  /** What filepath.Ext returns: nothing, or the text from the last dot on. */
  predicate IsExtension(ext: string) {
    ext == "" || (ext[0] == '.' && forall i | 1 <= i < |ext| :: ext[i] != '.')
  }

  lemma EndsInDigit(t: nat)
    ensures IsDigit(Format(t)[STAMP_LENGTH - 1])
  {
    assert Format(t)[STAMP_LENGTH - 1] == Pad(SecondOf(t), 2)[1];
  }

  /** Cutting ".gz" and then the extension off leaves the stamp, even for the extension ".gz". */
  lemma TrimsToStamp(stamp: string, ext: string, compressed: bool)
    requires |stamp| == STAMP_LENGTH && IsDigit(stamp[STAMP_LENGTH - 1]) && IsExtension(ext)
    ensures TrimSuffix(TrimSuffix(stamp + ext + if compressed then ".gz" else "", ".gz"), ext) == stamp
  {
    var all := stamp + ext + if compressed then ".gz" else "";
    assert TrimSuffix(stamp + ext, ext) == stamp;
    if compressed {
      assert all[|all| - 3..] == ".gz" && all[..|all| - 3] == stamp + ext;
    } else {
      assert all == stamp + ext;
      assert stamp[12..][2] == stamp[14];
      if ext != ".gz" {
        DotStarts(stamp, ext);
      }
    }
  }

  lemma DotStarts(stamp: string, ext: string)
    requires |stamp| == STAMP_LENGTH && IsDigit(stamp[STAMP_LENGTH - 1]) && IsExtension(ext) && ext != ".gz"
    ensures (stamp + ext)[|stamp + ext| - 3..] != ".gz"
  {
    var all := stamp + ext;
    var end := all[|all| - 3..];
    if |ext| > 3 {
      assert end[0] == ext[|ext| - 3];
    } else if |ext| == 3 {
      assert end == ext;
    } else if |ext| == 0 {
      assert end[2] == stamp[14];
    } else {
      assert end[2 - |ext|] == stamp[14];
    }
  }

  /** The stamp of a rotated file is recovered from its name, compressed or not. */
  lemma NameReadsBack(base: string, ext: string, t: nat, compressed: bool)
    requires FourDigitYear(t) && IsExtension(ext)
    ensures ParseStamp(RotatedName(base, ext, t) + if compressed then ".gz" else "", base + ".", ext) == Some(t - t % SECOND)
  {
    hide Format, Parse, TrimSuffix, IsExtension;
    StampReadsBack(t);
    EndsInDigit(t);
    var stamp := Format(t);
    var rest := stamp + ext + if compressed then ".gz" else "";
    assert RotatedName(base, ext, t) + (if compressed then ".gz" else "") == (base + ".") + rest;
    assert TrimPrefix((base + ".") + rest, base + ".") == rest;
    TrimsToStamp(stamp, ext, compressed);
    assert stamp[..STAMP_LENGTH] == stamp;
  }

  // ----- The order of stamps

  lemma {:induction false} BeforeJoined(a: string, x: string, b: string, y: string)
    requires |a| == |b|
    ensures Before(a + x, b + y) <==> Before(a, b) || (a == b && Before(x, y))
  {
    if a == "" {
      assert a + x == x && b + y == y;
    } else {
      BeforeJoined(a[1..], x, b[1..], y);
      assert (a + x)[1..] == a[1..] + x && (b + y)[1..] == b[1..] + y;
      assert a == [a[0]] + a[1..] && b == [b[0]] + b[1..];
    }
  }

  /** Numbers that fit sort like their padded digits. */
  lemma {:induction false} PadOrder(n: nat, m: nat, width: nat)
    requires n < Ten(width) && m < Ten(width)
    ensures Before(Pad(n, width), Pad(m, width)) <==> n < m
    ensures Pad(n, width) == Pad(m, width) <==> n == m
  {
    PadReadsBack(n, width);
    PadReadsBack(m, width);
    if width > 0 {
      PadOrder(n / 10, m / 10, width - 1);
      BeforeJoined(Pad(n / 10, width - 1), [Digit(n % 10)], Pad(m / 10, width - 1), [Digit(m % 10)]);
    }
  }

  lemma PadOrder2(n: nat, m: nat)
    requires n < 100 && m < 100
    ensures Before(Pad(n, 2), Pad(m, 2)) <==> n < m
    ensures Pad(n, 2) == Pad(m, 2) <==> n == m
  {
    assert Ten(2) == 100;
    PadOrder(n, m, 2);
  }

  lemma FormatDayOrder(a: Date, b: Date)
    requires ValidDate(a) && ValidDate(b) && a.year <= 9999 && b.year <= 9999
    ensures Before(FormatDay(a), FormatDay(b)) <==> EarlierDate(a, b)
    ensures FormatDay(a) == FormatDay(b) <==> a == b
  {
    hide Pad, Before;
    DayReadsBack(a);
    DayReadsBack(b);
    DateOrder(a, b);
    DayNumberUnique(a, b);
    assert Ten(4) == 10_000;
    PadOrder(a.year, b.year, 4);
    PadOrder2(a.month, b.month);
    PadOrder2(a.day, b.day);
    BeforeJoined(Pad(a.year, 4) + Pad(a.month, 2), Pad(a.day, 2), Pad(b.year, 4) + Pad(b.month, 2), Pad(b.day, 2));
    BeforeJoined(Pad(a.year, 4), Pad(a.month, 2), Pad(b.year, 4), Pad(b.month, 2));
    JoinedEqual(Pad(a.year, 4), Pad(a.month, 2), Pad(b.year, 4), Pad(b.month, 2));
  }

  lemma JoinedEqual(a: string, x: string, b: string, y: string)
    requires |a| == |b|
    ensures a + x == b + y <==> a == b && x == y
  {
    if a + x == b + y {
      assert a == (a + x)[..|a|] && b == (b + y)[..|b|];
      assert x == (a + x)[|a|..] && y == (b + y)[|b|..];
    }
  }

  lemma FormatTimeOrder(t: nat, u: nat)
    requires DayOf(t) == DayOf(u)
    ensures Before(FormatTime(t), FormatTime(u)) <==> t / SECOND < u / SECOND
  {
    hide Pad, Before;
    PadOrder2(HourOf(t), HourOf(u));
    PadOrder2(MinuteOf(t), MinuteOf(u));
    PadOrder2(SecondOf(t), SecondOf(u));
    BeforeJoined(Pad(HourOf(t), 2) + Pad(MinuteOf(t), 2), Pad(SecondOf(t), 2), Pad(HourOf(u), 2) + Pad(MinuteOf(u), 2), Pad(SecondOf(u), 2));
    BeforeJoined(Pad(HourOf(t), 2), Pad(MinuteOf(t), 2), Pad(HourOf(u), 2), Pad(MinuteOf(u), 2));
    JoinedEqual(Pad(HourOf(t), 2), Pad(MinuteOf(t), 2), Pad(HourOf(u), 2), Pad(MinuteOf(u), 2));
    WholeSeconds(t);
    WholeSeconds(u);
    SecondsOfDay(t);
    SecondsOfDay(u);
  }

  lemma SecondsOfDay(t: nat)
    ensures t / SECOND == DayOf(t) * 86_400 + HourOf(t) * 3600 + MinuteOf(t) * 60 + SecondOf(t)
  {
    WholeSeconds(t);
    var x := t / SECOND;
    assert t == x * SECOND + t % SECOND && t == DayOf(t) * DAY + t % DAY;
    assert x * SECOND == (DayOf(t) * 86_400 + HourOf(t) * 3600 + MinuteOf(t) * 60 + SecondOf(t)) * SECOND;
  }

  /** A stamp says no more than the second. */
  lemma SameSecond(t: nat, u: nat)
    requires t / SECOND == u / SECOND
    ensures Format(t) == Format(u)
  {
    hide DateOf, Pad;
    SecondsOfDay(t);
    SecondsOfDay(u);
    assert DayOf(t) == DayOf(u) && HourOf(t) == HourOf(u) && MinuteOf(t) == MinuteOf(u) && SecondOf(t) == SecondOf(u) by {
      hide DayOf, HourOf, MinuteOf, SecondOf;
    }
  }

  /** Names sort as the seconds they were rotated at. */
  lemma StampsSortByTime(t: nat, u: nat)
    requires FourDigitYear(t) && FourDigitYear(u)
    ensures Before(Format(t), Format(u)) <==> t / SECOND < u / SECOND
  {
    var a, b := DateOf(DayOf(t)), DateOf(DayOf(u));
    hide Before, FormatDay, FormatTime, DateOf, HourOf, MinuteOf, SecondOf;
    FourDigits(t);
    FourDigits(u);
    FormatDayOrder(a, b);
    DateOrder(a, b);
    DayNumberUnique(a, b);
    BeforeJoined(FormatDay(a) + "-", FormatTime(t), FormatDay(b) + "-", FormatTime(u));
    BeforeJoined(FormatDay(a), "-", FormatDay(b), "-");
    JoinedEqual(FormatDay(a), "-", FormatDay(b), "-");
    BeforeTotal("-", "-");
    SecondsOfDay(t);
    SecondsOfDay(u);
    if DayOf(t) == DayOf(u) {
      FormatTimeOrder(t, u);
    }
  }
}
