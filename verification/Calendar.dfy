/**
 The proleptic Gregorian calendar in UTC, in place of Go's time package.

 A day is its number since 1 January of year 1, which was a Monday; an instant is the number
 of nanoseconds since the start of that day. Days are counted by years and months of their
 Gregorian lengths, and a date is found again by searching for its year and then its month.
 Weekdays count from Sunday as 0, as in Go. There are no leap seconds and no time zones, and
 no instants before year 1: where the modelled code can meet the year 0, the module that
 models it adds that year.
 */
module Calendar {

  const SECOND: nat := 1_000_000_000
  const MINUTE: nat := 60 * SECOND
  const HOUR: nat := 60 * MINUTE
  const DAY: nat := 24 * HOUR

  predicate IsLeap(y: nat) {
    (y % 4 == 0 && y % 100 != 0) || y % 400 == 0
  }

  function DaysInYear(y: nat): nat {
    if IsLeap(y) then 366 else 365
  }

  function DaysInMonth(y: nat, m: nat): nat {
    if m == 2 then if IsLeap(y) then 29 else 28
    else if m == 4 || m == 6 || m == 9 || m == 11 then 30
    else 31
  }

  /** The number of the first day of a year. */
  function YearStart(y: nat): nat {
    if y <= 1 then 0 else YearStart(y - 1) + DaysInYear(y - 1)
  }

  /** The days of a year before its month `m`. */
  function MonthStart(y: nat, m: nat): nat {
    if m <= 1 then 0 else MonthStart(y, m - 1) + DaysInMonth(y, m - 1)
  }

  datatype Date = Date(year: nat, month: nat, day: nat)

  predicate ValidDate(d: Date) {
    1 <= d.year && 1 <= d.month <= 12 && 1 <= d.day <= DaysInMonth(d.year, d.month)
  }

  function DayNumber(d: Date): nat
    requires ValidDate(d)
  {
    YearStart(d.year) + MonthStart(d.year, d.month) + d.day - 1
  }

  /** The year of day `n`, searching from year `y`. */
  function FindYear(n: nat, y: nat): (r: nat)
    requires y >= 1 && YearStart(y) <= n
    ensures r >= y && YearStart(r) <= n < YearStart(r + 1)
    decreases n - YearStart(y)
  {
    if n < YearStart(y + 1) then y else FindYear(n, y + 1)
  }

  /** The month of the day that is `k` days into year `y`, searching from month `m`. */
  function FindMonth(y: nat, k: nat, m: nat): (r: nat)
    requires 1 <= m <= 12 && MonthStart(y, m) <= k < DaysInYear(y)
    ensures m <= r <= 12 && MonthStart(y, r) <= k < MonthStart(y, r + 1)
    decreases k - MonthStart(y, m)
  {
    MonthsFillYear(y);
    if m == 12 || k < MonthStart(y, m + 1) then m else FindMonth(y, k, m + 1)
  }

  lemma MonthsFillYear(y: nat)
    ensures MonthStart(y, 13) == DaysInYear(y)
    ensures MonthStart(y, 2) == 31
  {
    assert MonthStart(y, 2) == 31;
    assert MonthStart(y, 3) == 31 + DaysInMonth(y, 2);
    assert MonthStart(y, 5) == MonthStart(y, 3) + 61;
    assert MonthStart(y, 7) == MonthStart(y, 5) + 61;
    assert MonthStart(y, 9) == MonthStart(y, 7) + 62;
    assert MonthStart(y, 11) == MonthStart(y, 9) + 61;
    assert MonthStart(y, 13) == MonthStart(y, 11) + 61;
  }

  /** The date of a day. */
  function DateOf(n: nat): (d: Date)
    ensures ValidDate(d) && DayNumber(d) == n
  {
    var y := FindYear(n, 1);
    var k := n - YearStart(y);
    var m := FindMonth(y, k, 1);
    Date(y, m, k - MonthStart(y, m) + 1)
  }

  lemma {:induction false} YearsGrow(a: nat, b: nat)
    requires 1 <= a < b
    ensures YearStart(a) + DaysInYear(a) <= YearStart(b)
  {
    if a + 1 < b {
      YearsGrow(a, b - 1);
    }
  }

  lemma {:induction false} MonthsGrow(y: nat, a: nat, b: nat)
    requires 1 <= a < b
    ensures MonthStart(y, a) + DaysInMonth(y, a) <= MonthStart(y, b)
  {
    if a + 1 < b {
      MonthsGrow(y, a, b - 1);
    }
  }

  lemma DayIsInItsYear(d: Date)
    requires ValidDate(d)
    ensures YearStart(d.year) <= DayNumber(d) < YearStart(d.year) + DaysInYear(d.year)
  {
    MonthsFillYear(d.year);
    MonthsGrow(d.year, d.month, 13);
  }

  /** Different dates are different days. */
  lemma DayNumberInjective(a: Date, b: Date)
    requires ValidDate(a) && ValidDate(b) && DayNumber(a) == DayNumber(b)
    ensures a == b
  {
    DayIsInItsYear(a);
    DayIsInItsYear(b);
    if a.year < b.year {
      YearsGrow(a.year, b.year);
    } else if b.year < a.year {
      YearsGrow(b.year, a.year);
    } else if a.month < b.month {
      MonthsGrow(a.year, a.month, b.month);
    } else if b.month < a.month {
      MonthsGrow(a.year, b.month, a.month);
    }
  }

  predicate EarlierDate(a: Date, b: Date) {
    a.year < b.year || (a.year == b.year && (a.month < b.month || (a.month == b.month && a.day < b.day)))
  }

  /** Days are numbered in the order of their dates. */
  lemma DateOrder(a: Date, b: Date)
    requires ValidDate(a) && ValidDate(b)
    ensures EarlierDate(a, b) <==> DayNumber(a) < DayNumber(b)
  {
    if EarlierDate(a, b) {
      EarlierNumber(a, b);
    } else if EarlierDate(b, a) {
      EarlierNumber(b, a);
    } else {
      assert a == b;
    }
  }

  lemma EarlierNumber(a: Date, b: Date)
    requires ValidDate(a) && ValidDate(b) && EarlierDate(a, b)
    ensures DayNumber(a) < DayNumber(b)
  {
    DayIsInItsYear(a);
    DayIsInItsYear(b);
    if a.year < b.year {
      YearsGrow(a.year, b.year);
    } else if a.month < b.month {
      MonthsGrow(a.year, a.month, b.month);
    }
  }

  lemma DayNumberUnique(a: Date, b: Date)
    requires ValidDate(a) && ValidDate(b)
    ensures a == b <==> DayNumber(a) == DayNumber(b)
  {
    if DayNumber(a) == DayNumber(b) {
      DayNumberInjective(a, b);
    }
  }

  /** Numbering days and reading dates are inverse. */
  lemma DateOfDayNumber(d: Date)
    requires ValidDate(d)
    ensures DateOf(DayNumber(d)) == d
  {
    DayNumberInjective(DateOf(DayNumber(d)), d);
  }

  /** 0 is Sunday, as in Go's time.Weekday. */
  function Weekday(n: nat): (w: nat)
    ensures w < 7
  {
    (n + 1) % 7
  }

  // ----- Parts of an instant

  function DayOf(t: nat): nat {
    t / DAY
  }

  function HourOf(t: nat): (h: nat)
    ensures h < 24
  {
    t % DAY / HOUR
  }

  function MinuteOf(t: nat): (m: nat)
    ensures m < 60
  {
    t % HOUR / MINUTE
  }

  function SecondOf(t: nat): (s: nat)
    ensures s < 60
  {
    t % MINUTE / SECOND
  }

  // ----- Years of four digits

  /** The start of the year 10000. */
  const YEAR_10000: nat := 3_652_059 * DAY

  predicate FourDigitYear(t: nat) {
    t < YEAR_10000
  }

  /** How many leap years a year adds, counted by its divisors. */
  lemma LeapYearsGrow(z: nat)
    requires z >= 1
    ensures z / 4 - (z - 1) / 4 == if z % 4 == 0 then 1 else 0
    ensures z / 100 - (z - 1) / 100 == if z % 100 == 0 then 1 else 0
    ensures z / 400 - (z - 1) / 400 == if z % 400 == 0 then 1 else 0
  {}

  lemma Divisors(z: nat)
    ensures z % 400 == 0 ==> z % 100 == 0
    ensures z % 100 == 0 ==> z % 4 == 0
  {
    if z % 100 == 0 {
      DivMod(25 * (z / 100), 0, 4);
    }
    if z % 400 == 0 {
      DivMod(4 * (z / 400), 0, 100);
    }
  }

  lemma {:induction false} YearStartIs(y: nat)
    requires y >= 1
    ensures YearStart(y) == 365 * (y - 1) + (y - 1) / 4 - (y - 1) / 100 + (y - 1) / 400
  {
    if y > 1 {
      YearStartIs(y - 1);
      LeapYearsGrow(y - 1);
      Divisors(y - 1);
      assert YearStart(y) == YearStart(y - 1) + DaysInYear(y - 1);
    }
  }

  lemma FourDigits(t: nat)
    ensures FourDigitYear(t) <==> DateOf(DayOf(t)).year <= 9999
  {
    hide YearStart, DateOf, DayNumber;
    YearStartIs(10_000);
    var d := DateOf(DayOf(t));
    DayIsInItsYear(d);
    if d.year < 10_000 {
      YearsGrow(d.year, 10_000);
    } else if d.year > 10_000 {
      YearsGrow(10_000, d.year);
    }
  }

  /** The instant at which a minute of a day starts. */
  function Instant(day: nat, hour: nat, minute: nat): nat {
    day * DAY + hour * HOUR + minute * MINUTE
  }

  lemma PartsOfInstant(day: nat, hour: nat, minute: nat)
    requires hour < 24 && minute < 60
    ensures DayOf(Instant(day, hour, minute)) == day
    ensures HourOf(Instant(day, hour, minute)) == hour
    ensures MinuteOf(Instant(day, hour, minute)) == minute
    ensures Instant(day, hour, minute) % MINUTE == 0
  {
    var t := Instant(day, hour, minute);
    var hours := 24 * day + hour;
    assert t == day * DAY + (hour * HOUR + minute * MINUTE) == hours * HOUR + minute * MINUTE ==
                (60 * hours + minute) * MINUTE + 0;
    DivMod(day, hour * HOUR + minute * MINUTE, DAY);
    DivMod(hour, minute * MINUTE, HOUR);
    DivMod(hours, minute * MINUTE, HOUR);
    DivMod(minute, 0, MINUTE);
    DivMod(60 * hours + minute, 0, MINUTE);
  }

  /** A start of a minute is the instant of its parts. */
  lemma InstantOfParts(t: nat)
    requires t % MINUTE == 0
    ensures t == Instant(DayOf(t), HourOf(t), MinuteOf(t))
  {
    var minutes := t / MINUTE;
    var hours := minutes / 60;
    assert t == Instant(hours / 24, hours % 24, minutes % 60);
    PartsOfInstant(hours / 24, hours % 24, minutes % 60);
  }

  lemma DivMod(q: nat, r: nat, n: nat)
    requires r < n
    ensures (q * n + r) / n == q && (q * n + r) % n == r
  {
    var x := q * n + r;
    assert x == (x / n) * n + x % n;
    if x / n < q {
      Multiples(x / n + 1, q, n);
    } else if x / n > q {
      Multiples(q + 1, x / n, n);
    }
  }

  lemma Multiples(a: nat, b: nat, n: nat)
    requires a <= b
    ensures a * n <= b * n
  {}
}
