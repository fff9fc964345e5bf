/**
 Dates and times as text, in place of Go's layouts "2006-01-02", "20060102" and "150405".

 Go formats a date by padding its year to four digits and its other parts to two, and parses
 it by reading exactly that many digits and then checking every part against its range: the
 day against the length of its month, the hour, minute and second against 24 and 60. What is
 parsed may be of the year 0, for which Go's calendar has days before those of year 1; they
 are numbered here by way of the year 400, since the calendar repeats after 400 years.
 */
module Stamps {
  import opened Results
  import opened Text
  import opened Calendar

  /** Days of the 400 years after which the calendar repeats, weekdays included. */
  const CYCLE: nat := 146_097

  predicate ValidDay(year: nat, month: nat, day: nat) {
    1 <= month <= 12 && 1 <= day <= DaysInMonth(year, month)
  }

  /** The number of a day whose year may be 0, the year before year 1. */
  function CivilDay(year: nat, month: nat, day: nat): int
    requires ValidDay(year, month, day)
  {
    if year == 0 then DayNumber(Date(400, month, day)) - CYCLE else DayNumber(Date(year, month, day))
  }

  function FormatTime(t: nat): (s: string)
    ensures |s| == 6
  {
    Pad(HourOf(t), 2) + Pad(MinuteOf(t), 2) + Pad(SecondOf(t), 2)
  }

  /** The time of day that six digits give. */
  function ParseTime(s: string): Option<nat>
    requires |s| == 6 && AllDigits(s)
  {
    var hour, minute, second := Value(s[..2]), Value(s[2..4]), Value(s[4..]);
    if hour < 24 && minute < 60 && second < 60 then Some(hour * HOUR + minute * MINUTE + second * SECOND) else None
  }

  /** The digits of a time of day give it back without its fraction of a second. */
  lemma TimeReadsBack(t: nat)
    ensures AllDigits(FormatTime(t)) && ParseTime(FormatTime(t)) == Some(t % DAY - t % SECOND)
  {
    var s := FormatTime(t);
    assert s[..2] == Pad(HourOf(t), 2) && s[2..4] == Pad(MinuteOf(t), 2) && s[4..] == Pad(SecondOf(t), 2);
    assert Ten(2) == 100;
    PadReadsBack(HourOf(t), 2);
    PadReadsBack(MinuteOf(t), 2);
    PadReadsBack(SecondOf(t), 2);
    WholeSeconds(t);
  }

  lemma WholeSeconds(t: nat)
    ensures HourOf(t) * HOUR + MinuteOf(t) * MINUTE + SecondOf(t) * SECOND == t % DAY - t % SECOND
  {
    Nested(t, t / DAY, t % DAY, t % DAY / HOUR, t % DAY % HOUR, 24, HOUR);
    Nested(t, t / HOUR, t % HOUR, t % HOUR / MINUTE, t % HOUR % MINUTE, 60, MINUTE);
    Nested(t, t / MINUTE, t % MINUTE, t % MINUTE / SECOND, t % MINUTE % SECOND, 60, SECOND);
  }

  lemma Nested(t: nat, q: nat, r: nat, a: nat, b: nat, k: nat, n: nat)
    requires t == q * (k * n) + r && r == a * n + b && b < n
    ensures t % n == b
  {
    Regroup(q, k, n, a, b);
    DivMod(q * k + a, b, n);
  }

  lemma Regroup(q: nat, k: nat, n: nat, a: nat, b: nat)
    ensures q * (k * n) + (a * n + b) == (q * k + a) * n + b
  {
    assert q * (k * n) == (q * k) * n;
  }

  /** The instant 13:14:15 on 5 March 2024, to have something to look at. */
  function SomeInstant(): nat {
    738_949 * DAY + 13 * HOUR + 14 * MINUTE + 15 * SECOND
  }

  lemma SomeInstantIs()
    ensures DateOf(DayOf(SomeInstant())) == Date(2024, 3, 5) && FormatTime(SomeInstant()) == "131415"
  {
    hide DateOf, YearStart, Pad;
    var t := SomeInstant();
    assert DayOf(t) == 738_949 && HourOf(t) == 13 && MinuteOf(t) == 14 && SecondOf(t) == 15;
    YearStartIs(2024);
    assert MonthStart(2024, 3) == 60 by {
      assert MonthStart(2024, 2) == 31;
    }
    DateOfDayNumber(Date(2024, 3, 5));
    TwoDigits(13, '1', '3');
    TwoDigits(14, '1', '4');
    TwoDigits(15, '1', '5');
  }

  lemma TwoDigits(n: nat, a: char, b: char)
    requires '0' <= a <= '9' && '0' <= b <= '9' && n == 10 * (a - '0') as nat + (b - '0') as nat
    ensures Pad(n, 2) == [a, b]
  {
    assert n / 10 == (a - '0') as nat && n % 10 == (b - '0') as nat;
    assert Pad(n / 10, 1) == Pad(n / 10 / 10, 0) + [Digit(n / 10 % 10)] == [a];
  }

  lemma Year2024()
    ensures Pad(2024, 4) == "2024"
  {
    assert Pad(2, 1) == Pad(0, 0) + [Digit(2)] == "2";
    assert Pad(20, 2) == Pad(2, 1) + [Digit(0)] == "20";
    assert Pad(202, 3) == Pad(20, 2) + [Digit(2)] == "202";
    assert Pad(2024, 4) == Pad(202, 3) + [Digit(4)] == "2024";
  }
}
