/**
 When src/logging/rotate.go rotates a log by the calendar, and which rotated files its
 retention policies delete. Instants are nanoseconds, durations 64-bit nanoseconds.
 */
module LogRetention {
  import opened Results
  import opened Text
  import opened Calendar
  import opened Sorting
  import opened Sets

  // ----- Calendar periods

  datatype Period = Never | Daily | Weekly | Monthly | Yearly

  /** What identifies a period. Day 0 is a Monday, so every seven days make an ISO week. */
  function PeriodKey(p: Period, t: nat): (int, int) {
    var d := DateOf(DayOf(t));
    match p
    case Never => (0, 0)
    case Daily => (DayOf(t), 0)
    case Weekly => (DayOf(t) / 7, 0)
    case Monthly => (d.year, d.month)
    case Yearly => (d.year, 0)
  }

  predicate ShouldRotateTime(openedAt: nat, now: nat, p: Period) {
    p != Never && now >= openedAt && PeriodKey(p, openedAt) != PeriodKey(p, now)
  }

  /** The days that begin a period. */
  predicate Begins(p: Period, day: nat) {
    match p
    case Never => false
    case Daily => true
    case Weekly => day % 7 == 0
    case Monthly => DateOf(day).day == 1
    case Yearly => DateOf(day).day == 1 && DateOf(day).month == 1
  }

  predicate Crossed(p: Period, from: nat, to: nat) {
    exists day :: from < day <= to && Begins(p, day)
  }

  /** A time policy rotates exactly when a midnight that begins a period has passed since the file was opened. */
  lemma RotatesAtBoundaries(openedAt: nat, now: nat, p: Period)
    ensures ShouldRotateTime(openedAt, now, p) <==> now >= openedAt && Crossed(p, DayOf(openedAt), DayOf(now))
  {
    if p != Never && now >= openedAt {
      var from, to := DayOf(openedAt), DayOf(now);
      DaysGrow(openedAt, now);
      match p {
        case Daily => assert from < to ==> Begins(p, to);
        case Weekly => WeekBoundary(from, to);
        case Monthly => MonthBoundary(from, to);
        case Yearly => YearBoundary(from, to);
      }
    }
  }

  /** The weekly boundary is the midnight that begins a Monday. */
  lemma WeeksBeginOnMondays(day: nat)
    ensures Begins(Weekly, day) <==> Weekday(day) == 1
  {}

  lemma DaysGrow(t: nat, u: nat)
    requires t <= u
    ensures DayOf(t) <= DayOf(u)
  {}

  lemma WeekBoundary(from: nat, to: nat)
    requires from <= to
    ensures from / 7 != to / 7 <==> Crossed(Weekly, from, to)
  {
    if from / 7 != to / 7 {
      assert Begins(Weekly, to / 7 * 7);
    }
  }

  lemma MonthBoundary(from: nat, to: nat)
    requires from <= to
    ensures (DateOf(from).year, DateOf(from).month) != (DateOf(to).year, DateOf(to).month) <==> Crossed(Monthly, from, to)
  {
    var a, b := DateOf(from), DateOf(to);
    hide DateOf, DayNumber;
    DateOrder(b, a);
    if (a.year, a.month) != (b.year, b.month) {
      var first := Date(b.year, b.month, 1);
      DateOrder(a, first);
      DateOrder(b, first);
      DateOfDayNumber(first);
      assert Begins(Monthly, DayNumber(first));
    } else {
      forall day | from < day <= to ensures !Begins(Monthly, day) {
        DateOrder(a, DateOf(day));
        DateOrder(b, DateOf(day));
      }
    }
  }

  lemma YearBoundary(from: nat, to: nat)
    requires from <= to
    ensures DateOf(from).year != DateOf(to).year <==> Crossed(Yearly, from, to)
  {
    var a, b := DateOf(from), DateOf(to);
    hide DateOf, DayNumber;
    DateOrder(b, a);
    if a.year != b.year {
      var first := Date(b.year, 1, 1);
      DateOrder(a, first);
      DateOrder(b, first);
      DateOfDayNumber(first);
      assert Begins(Yearly, DayNumber(first));
    } else {
      forall day | from < day <= to ensures !Begins(Yearly, day) {
        DateOrder(a, DateOf(day));
        DateOrder(b, DateOf(day));
      }
    }
  }

  // ----- Retention policies

  function Lower(c: char): char {
    if 'A' <= c <= 'Z' then c - 'A' + 'a' else c
  }

  function ToLower(s: string): string {
    if s == "" then "" else [Lower(s[0])] + ToLower(s[1..])
  }

  datatype Keep = Nothing | Forever | Age(count: nat, unit: nat) | Newest(count: nat) | Unknown

  function ParseKeepAge(policy: string): Option<Keep> {
    if |policy| < 2 then None
    else
      var last := policy[|policy| - 1];
      var count := Atoi(policy[..|policy| - 1]);
      if last !in "dwm" || count.None? || count.value < 0 then None
      else Some(Age(count.value, if last == 'd' then DAY else if last == 'w' then 7 * DAY else 30 * DAY))
  }

  function ParseKeep(keep: string): Keep {
    var policy := ToLower(TrimSpace(keep));
    if policy == "" || policy == "none" then Nothing
    else if policy == "forever" then Forever
    else if ParseKeepAge(policy).Some? then ParseKeepAge(policy).value
    else
      var n := Atoi(policy);
      if n.Some? && n.value >= 0 then Newest(n.value) else Unknown
  }

  lemma {:induction false} LowerDigits(s: string, end: string)
    requires AllDigits(s)
    ensures ToLower(s + end) == s + ToLower(end)
  {
    if s == "" {
      assert s + end == end && s + ToLower(end) == ToLower(end);
    } else {
      LowerDigits(s[1..], end);
      assert (s + end)[1..] == s[1..] + end && [s[0]] + (s[1..] + ToLower(end)) == s + ToLower(end);
      assert IsDigit(s[0]);
    }
  }

  /** A number keeps that many files; with a unit of either case it keeps files of that age. */
  lemma NumbersRead(s: string)
    requires s != "" && AllDigits(s) && Value(s) < INT64_LIMIT
    ensures ParseKeep(s) == Newest(Value(s))
    ensures ParseKeep(s + "d") == ParseKeep(s + "D") == Age(Value(s), DAY)
    ensures ParseKeep(s + "w") == ParseKeep(s + "W") == Age(Value(s), 7 * DAY)
    ensures ParseKeep(s + "m") == ParseKeep(s + "M") == Age(Value(s), 30 * DAY)
  {
    assert IsDigit(s[0]) && IsDigit(s[|s| - 1]);
    CountReads(s);
    AgeReads(s, 'd', 'D');
    AgeReads(s, 'w', 'W');
    AgeReads(s, 'm', 'M');
  }

  lemma CountReads(s: string)
    requires s != "" && AllDigits(s) && Value(s) < INT64_LIMIT
    ensures ParseKeep(s) == Newest(Value(s))
  {
    hide Value, TrimSpace;
    assert IsDigit(s[0]) && IsDigit(s[|s| - 1]);
    NothingToTrim(s);
    LowerDigits(s, "");
    assert s + "" == s && ToLower("") == "";
    AtoiOfDigits(s);
    assert s != "none" && s != "forever";
  }

  lemma AgeReads(s: string, unit: char, upper: char)
    requires s != "" && AllDigits(s) && Value(s) < INT64_LIMIT && unit in "dwm" && upper in "DWM" && Lower(upper) == unit
    ensures ParseKeep(s + [unit]) == ParseKeep(s + [upper]) ==
            Age(Value(s), if unit == 'd' then DAY else if unit == 'w' then 7 * DAY else 30 * DAY)
  {
    hide ParseKeep, Value;
    AgeWithUnit(s, unit, unit);
    AgeWithUnit(s, unit, upper);
  }

  lemma AgeWithUnit(s: string, unit: char, c: char)
    requires s != "" && AllDigits(s) && Value(s) < INT64_LIMIT && unit in "dwm" && c in "dwmDWM" && Lower(c) == unit
    ensures ParseKeep(s + [c]) == Age(Value(s), if unit == 'd' then DAY else if unit == 'w' then 7 * DAY else 30 * DAY)
  {
    hide Value, TrimSpace;
    assert IsDigit(s[0]);
    assert ToLower(TrimSpace(s + [c])) == s + [unit] by {
      NothingToTrim(s + [c]);
      LowerDigits(s, [c]);
      assert [c][1..] == "";
    }
    assert (s + [unit])[..|s|] == s;
    AtoiOfDigits(s);
    assert (s + [unit])[0] == s[0];
  }

  /** The text is the word in letters of either case. */
  predicate SameLetters(t: string, word: string) {
    |t| == |word| && forall i | 0 <= i < |t| :: t[i] == word[i] || ('A' <= t[i] <= 'Z' && t[i] as int + 32 == word[i] as int)
  }

  lemma {:induction false} LowerIff(t: string, word: string)
    requires forall i | 0 <= i < |word| :: 'a' <= word[i] <= 'z'
    ensures ToLower(t) == word <==> SameLetters(t, word)
  {
    if t != "" && word != "" {
      LowerIff(t[1..], word[1..]);
      assert word == [word[0]] + word[1..];
      assert forall i | 1 <= i < |t| :: t[i] == t[1..][i - 1];
      assert forall i | 1 <= i < |word| :: word[i] == word[1..][i - 1];
    }
  }

  /** "forever" keeps everything, and "none" or nothing keeps nothing, in any case and between any white space. */
  lemma WordsIff(keep: string, t: string)
    requires Trims(keep, t)
    ensures ParseKeep(keep) == Forever <==> SameLetters(t, "forever")
    ensures ParseKeep(keep) == Nothing <==> t == "" || SameLetters(t, "none")
  {
    hide TrimSpace, Trims, SameLetters, ParseKeepAge, Atoi;
    TrimIff(keep, t);
    LowerIff(t, "forever");
    LowerIff(t, "none");
    LowerIff(t, "");
    assert ToLower("") == "";
    AgeIsAge(ToLower(t));
    assert SameLetters(t, "") <==> t == "" by {
      NoLetters(t);
    }
  }

  lemma NoLetters(t: string)
    ensures SameLetters(t, "") <==> t == ""
  {}

  lemma AgeIsAge(policy: string)
    ensures ParseKeepAge(policy).Some? ==> ParseKeepAge(policy).value.Age?
  {}

  /** What 64-bit arithmetic keeps of a product. */
  function Wrap(x: int): (w: int)
    ensures -INT64_LIMIT <= w < INT64_LIMIT
  {
    (x + INT64_LIMIT) % (2 * INT64_LIMIT) - INT64_LIMIT
  }

  function Cutoff(now: int, count: int, unit: int): int {
    now + Wrap(-count * unit)
  }

  datatype Rotated = Rotated(name: string, stamp: int)

  /** Newest first; files of one stamp by descending name. */
  predicate NotOlder(f: Rotated, g: Rotated) {
    f.stamp > g.stamp || (f.stamp == g.stamp && !Before(f.name, g.name))
  }

  lemma NotOlderIsOrder()
    ensures TotalPreorder(NotOlder)
  {
    hide Before;
    forall x, y ensures NotOlder(x, y) || NotOlder(y, x) {
      BeforeTotal(x.name, y.name);
    }
    forall x, y, z | NotOlder(x, y) && NotOlder(y, z) ensures NotOlder(x, z) {
      BeforeTotal(x.name, y.name);
      BeforeTotal(y.name, z.name);
      if Before(x.name, z.name) && x.stamp == z.stamp {
        BeforeTotal(y.name, x.name);
        if Before(y.name, x.name) {
          BeforeTransitive(y.name, x.name, z.name);
        }
      }
    }
  }

  /** How a policy divides the rotated files. */
  predicate Divided(files: seq<Rotated>, keep: Keep, now: int, victims: seq<Rotated>, kept: seq<Rotated>) {
    multiset(victims) + multiset(kept) == multiset(files) &&
    match keep
    case Nothing => kept == []
    case Forever => victims == []
    case Unknown => victims == []
    case Age(count, unit) =>
      (forall f | f in victims :: f.stamp < Cutoff(now, count, unit)) &&
      forall f | f in kept :: f.stamp >= Cutoff(now, count, unit)
    case Newest(n) =>
      |kept| == (if n < |files| then n else |files|) && forall f, g | f in kept && g in victims :: NotOlder(f, g)
  }

  method PruneList(files: seq<Rotated>, keep: string, now: int) returns (victims: seq<Rotated>)
    ensures exists kept :: Divided(files, ParseKeep(keep), now, victims, kept)
  {
    NotOlderIsOrder();
    var sorted := Sort(files, NotOlder);
    hide Divided, NotOlder, ParseKeep, Sorted;
    var policy := ParseKeep(keep);
    match policy {
      case Nothing =>
        AllGo(files, sorted, now);
        return sorted;
      case Forever =>
        NoneGoes(files, policy, now);
        return [];
      case Age(count, unit) =>
        ghost var kept;
        victims, kept := OlderThan(sorted, Cutoff(now, count, unit));
        OldGo(files, count, unit, now, victims, kept);
      case Newest(n) =>
        if n >= |sorted| {
          SameLength(files, sorted);
          NoneGoes(files, policy, now);
          return [];
        }
        NewestStay(files, sorted, n, now);
        return sorted[n..];
      case Unknown =>
        NoneGoes(files, policy, now);
        return [];
    }
  }

  lemma SameLength(files: seq<Rotated>, sorted: seq<Rotated>)
    requires multiset(sorted) == multiset(files)
    ensures |sorted| == |files|
  {
    assert |multiset(sorted)| == |sorted| && |multiset(files)| == |files|;
  }

  lemma AllGo(files: seq<Rotated>, sorted: seq<Rotated>, now: int)
    requires multiset(sorted) == multiset(files)
    ensures Divided(files, Nothing, now, sorted, [])
  {}

  lemma NoneGoes(files: seq<Rotated>, keep: Keep, now: int)
    requires keep == Forever || keep == Unknown || (keep.Newest? && keep.count >= |files|)
    ensures Divided(files, keep, now, [], files)
  {}

  lemma OldGo(files: seq<Rotated>, count: nat, unit: nat, now: int, victims: seq<Rotated>, kept: seq<Rotated>)
    requires multiset(victims) + multiset(kept) == multiset(files)
    requires (forall f | f in victims :: f.stamp < Cutoff(now, count, unit)) && forall f | f in kept :: f.stamp >= Cutoff(now, count, unit)
    ensures Divided(files, Age(count, unit), now, victims, kept)
  {}

  lemma NewestStay(files: seq<Rotated>, sorted: seq<Rotated>, n: nat, now: int)
    requires multiset(sorted) == multiset(files) && Sorted(sorted, NotOlder) && n < |sorted|
    ensures Divided(files, Newest(n), now, sorted[n..], sorted[..n])
  {
    hide NotOlder;
    SameLength(files, sorted);
    SortedParts(sorted, NotOlder, n);
  }

  method OlderThan(files: seq<Rotated>, cutoff: int) returns (older: seq<Rotated>, ghost others: seq<Rotated>)
    ensures multiset(older) + multiset(others) == multiset(files)
    ensures (forall f | f in older :: f.stamp < cutoff) && forall f | f in others :: f.stamp >= cutoff
  {
    older, others := [], [];
    for i := 0 to |files|
      invariant multiset(older) + multiset(others) == multiset(files[..i])
      invariant (forall f | f in older :: f.stamp < cutoff) && forall f | f in others :: f.stamp >= cutoff
    {
      assert files[..i + 1] == files[..i] + [files[i]];
      if files[i].stamp < cutoff {
        older := older + [files[i]];
      } else {
        others := others + [files[i]];
      }
    }
    assert files[..|files|] == files;
  }

  // ----- What the policies promise

  /**
   An age policy deletes what is older than its age exactly as long as the age fits a 64-bit
   duration; beyond that the cutoff is too late and younger files go too.
   */
  lemma AgeIsExactWithinRange(now: int, count: int, unit: int)
    requires count >= 0 && unit >= 0
    ensures Cutoff(now, count, unit) == now - count * unit <==> count * unit <= INT64_LIMIT
    ensures Cutoff(now, count, unit) >= now - count * unit
  {
    WrapIsExact(-count * unit);
    assert -count * unit == -(count * unit);
  }

  lemma WrapIsExact(x: int)
    requires x <= 0
    ensures Wrap(x) == x <==> x >= -INT64_LIMIT
    ensures Wrap(x) >= x
  {}

  /**
   So the victims are the files older than the age exactly when the age fits, or no file is
   of the stretch between the intended cutoff and the later one.
   */
  lemma AgeVictimsIff(files: seq<Rotated>, count: nat, unit: nat, now: int, victims: seq<Rotated>, kept: seq<Rotated>)
    requires Divided(files, Age(count, unit), now, victims, kept)
    ensures (forall f | f in files :: f in victims <==> f.stamp < now - count * unit) <==>
            count * unit <= INT64_LIMIT || forall f | f in files :: !(now - count * unit <= f.stamp < Cutoff(now, count, unit))
  {
    hide Cutoff;
    AgeIsExactWithinRange(now, count, unit);
    forall f | f in files ensures f in victims <==> f.stamp < Cutoff(now, count, unit) {
      assert f in multiset(victims) + multiset(kept);
    }
  }

  /** Some 292 years is too long: everything up to now is deleted. */
  lemma LongAgeDeletesEverything(files: seq<Rotated>, now: int, victims: seq<Rotated>, kept: seq<Rotated>)
    requires Divided(files, Age(106_752, DAY), now, victims, kept)
    requires forall f | f in files :: f.stamp <= now
    ensures multiset(victims) == multiset(files)
  {
    assert -106_752 * DAY < -INT64_LIMIT;
    assert Cutoff(now, 106_752, DAY) > now;
    assert kept != [] ==> kept[0] in kept && kept[0] in files by {
      assert kept != [] ==> kept[0] in multiset(victims) + multiset(kept);
    }
  }

  /** A count keeps no file that is older than a victim; of one second it keeps the later names. */
  lemma CountPrefersNewer(files: seq<Rotated>, n: nat, now: int, victims: seq<Rotated>, kept: seq<Rotated>, f: Rotated, g: Rotated)
    requires Divided(files, Newest(n), now, victims, kept) && f in kept && g in victims
    ensures f.stamp >= g.stamp && (f.stamp == g.stamp ==> f.name == g.name || Before(g.name, f.name))
  {
    BeforeTotal(f.name, g.name);
  }

  predicate UniqueNames(files: seq<Rotated>) {
    forall i, j | 0 <= i < j < |files| :: files[i].name != files[j].name
  }

  /** The files that come before `f`, newest first. */
  function Ahead(files: seq<Rotated>, f: Rotated): set<Rotated> {
    set g | g in files && g != f && NotOlder(g, f)
  }

  lemma {:induction false} CountDistinct(files: seq<Rotated>)
    requires forall f :: multiset(files)[f] <= 1
    ensures |set f | f in files| == |files|
  {
    if files != [] {
      var k := |files| - 1;
      assert files == files[..k] + [files[k]];
      forall f: Rotated ensures multiset(files[..k])[f] <= 1 {
        assert multiset(files)[f] == multiset(files[..k])[f] + multiset{files[k]}[f];
      }
      CountDistinct(files[..k]);
      assert multiset(files)[files[k]] == multiset(files[..k])[files[k]] + 1;
      assert (set f | f in files) == (set f | f in files[..k]) + {files[k]};
    }
  }

  lemma {:induction false} NamesOccurOnce(files: seq<Rotated>)
    requires UniqueNames(files)
    ensures forall f :: multiset(files)[f] <= 1
    ensures forall f, g | f in files && g in files && f.name == g.name :: f == g
  {
    if files != [] {
      var k := |files| - 1;
      NamesOccurOnce(files[..k]);
      assert files == files[..k] + [files[k]];
    }
  }

  /** Both parts of a division of distinct files are distinct, and they share nothing. */
  lemma DividedDistinct(files: seq<Rotated>, victims: seq<Rotated>, kept: seq<Rotated>)
    requires UniqueNames(files) && multiset(victims) + multiset(kept) == multiset(files)
    ensures forall f :: multiset(kept)[f] <= 1
    ensures forall f :: f in files <==> f in victims || f in kept
    ensures |files| == |victims| + |kept|
  {
    NamesOccurOnce(files);
    var all := multiset(files);
    forall f: Rotated ensures multiset(kept)[f] <= 1 && (f in files <==> f in victims || f in kept) {
      assert (multiset(victims) + multiset(kept))[f] == all[f];
      assert f in files <==> f in all;
    }
    assert |all| == |multiset(victims) + multiset(kept)|;
  }

  lemma KeptIsAmongNewest(files: seq<Rotated>, n: nat, now: int, victims: seq<Rotated>, kept: seq<Rotated>, f: Rotated)
    requires Divided(files, Newest(n), now, victims, kept) && UniqueNames(files) && f in kept
    ensures |Ahead(files, f)| < n
  {
    DividedDistinct(files, victims, kept);
    NamesOccurOnce(files);
    CountDistinct(kept);
    var keptSet := set g | g in kept;
    assert f in files;
    forall g | g in Ahead(files, f) ensures g in keptSet - {f} {
      if g in victims {
        BeforeTotal(f.name, g.name);
      }
    }
    SubsetSize(Ahead(files, f), keptSet - {f});
  }

  lemma VictimIsBehind(files: seq<Rotated>, n: nat, now: int, victims: seq<Rotated>, kept: seq<Rotated>, f: Rotated)
    requires Divided(files, Newest(n), now, victims, kept) && UniqueNames(files) && f in victims && f !in kept
    ensures |Ahead(files, f)| >= n
  {
    DividedDistinct(files, victims, kept);
    CountDistinct(kept);
    var keptSet := set g | g in kept;
    forall g | g in keptSet ensures g in Ahead(files, f) {}
    SubsetSize(keptSet, Ahead(files, f));
  }

  /** A count policy keeps a file exactly when fewer than that many files come before it, newest first. */
  lemma CountKeepsTheNewest(files: seq<Rotated>, n: nat, now: int, victims: seq<Rotated>, kept: seq<Rotated>, f: Rotated)
    requires Divided(files, Newest(n), now, victims, kept) && UniqueNames(files) && f in files
    ensures f in kept <==> |Ahead(files, f)| < n
  {
    DividedDistinct(files, victims, kept);
    if f in kept {
      KeptIsAmongNewest(files, n, now, victims, kept, f);
    } else {
      VictimIsBehind(files, n, now, victims, kept, f);
    }
  }
}
