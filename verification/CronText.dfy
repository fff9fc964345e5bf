/**
 How cron expressions are written: every expression of five well-formed fields, separated
 by white space, is read by src/scheduler/cron.go as what its fields say.
 */
module CronText {
  import opened Results
  import opened Text
  import opened Calendar
  import opened Cron

  /** A field as written: a star, a step, or a list of values, numbers given by their digits. */
  datatype Written = Star | Step(digits: string) | Values(values: seq<string>)

  predicate IsNumber(s: string) {
    s != "" && AllDigits(s)
  }

  predicate Numbers(vs: seq<string>) {
    forall i | 0 <= i < |vs| :: IsNumber(vs[i])
  }

  predicate ValidField(f: Written, min: nat, max: nat) {
    match f
    case Star => true
    case Step(s) => IsNumber(s) && 0 < Value(s) < INT64_LIMIT
    case Values(vs) => vs != [] && Numbers(vs) && forall i | 0 <= i < |vs| :: min <= Value(vs[i]) <= max
  }

  function Commas(vs: seq<string>): string
    requires vs != []
  {
    if |vs| == 1 then vs[0] else vs[0] + "," + Commas(vs[1..])
  }

  function FieldText(f: Written): string
    requires f.Values? ==> f.values != []
  {
    match f
    case Star => "*"
    case Step(s) => "*/" + s
    case Values(vs) => Commas(vs)
  }

  function Listed(vs: seq<string>): set<int>
    requires Numbers(vs)
  {
    set i | 0 <= i < |vs| :: Value(vs[i]) as int
  }

  lemma ListedLast(vs: seq<string>, k: nat)
    requires Numbers(vs) && |vs| == k + 1
    ensures Listed(vs) == Listed(vs[..k]) + {Value(vs[k])}
  {
    forall n | n in Listed(vs) ensures n in Listed(vs[..k]) + {Value(vs[k])} {
      var i :| 0 <= i < |vs| && n == Value(vs[i]);
      assert i < k ==> vs[i] == vs[..k][i];
    }
    forall n | n in Listed(vs[..k]) ensures n in Listed(vs) {
      var i :| 0 <= i < k && n == Value(vs[..k][i]);
      assert vs[i] == vs[..k][i];
    }
  }

  function Meaning(f: Written, min: nat): Matcher
    requires f.Step? ==> IsNumber(f.digits) && Value(f.digits) > 0
    requires f.Values? ==> Numbers(f.values)
  {
    match f
    case Star => Any
    case Step(s) => Every(Value(s), min)
    case Values(vs) => OneOf(Listed(vs))
  }

  lemma {:induction false} SplitCommas(vs: seq<string>)
    requires vs != [] && forall i | 0 <= i < |vs| :: ',' !in vs[i]
    ensures Split(Commas(vs), ',') == vs
  {
    if |vs| == 1 {
      SplitWhole(vs[0]);
      assert vs == [vs[0]];
    } else {
      SplitCommas(vs[1..]);
      SplitFirst(vs[0], Commas(vs[1..]));
      assert vs == [vs[0]] + vs[1..];
    }
  }

  lemma {:induction false} SplitWhole(s: string)
    requires ',' !in s
    ensures Split(s, ',') == [s]
  {
    if s != "" {
      SplitWhole(s[1..]);
      assert [s[0]] + s[1..] == s;
    }
  }

  lemma {:induction false} SplitFirst(s: string, rest: string)
    requires ',' !in s
    ensures Split(s + "," + rest, ',') == [s] + Split(rest, ',')
  {
    var all := s + "," + rest;
    if s == "" {
      assert all[0] == ',' && all[1..] == rest;
    } else {
      SplitFirst(s[1..], rest);
      assert all[1..] == s[1..] + "," + rest && [s[0]] + s[1..] == s;
    }
  }

  lemma {:induction false} PartsMean(vs: seq<string>, min: nat, max: nat)
    requires max < INT64_LIMIT && Numbers(vs) && forall i | 0 <= i < |vs| :: min <= Value(vs[i]) <= max
    ensures PartValues(vs, min, max) == Ok(Listed(vs))
  {
    if vs == [] {
      assert Listed(vs) == {};
    } else {
      var k := |vs| - 1;
      PartsMean(vs[..k], min, max);
      PartMeans(vs[k], min, max);
      ListedLast(vs, k);
    }
  }

  lemma PartMeans(v: string, min: nat, max: nat)
    requires max < INT64_LIMIT && IsNumber(v) && min <= Value(v) <= max
    ensures PartValue(v, min, max) == Some(Value(v))
  {
    assert IsDigit(v[0]) && IsDigit(v[|v| - 1]);
    NothingToTrim(v);
    AtoiOfDigits(v);
  }

  lemma StepReads(s: string, min: nat, max: nat)
    requires IsNumber(s) && 0 < Value(s) < INT64_LIMIT
    ensures Field("*/" + s, min, max) == Ok(Every(Value(s), min))
  {
    assert ("*/" + s)[2..] == s && ("*/" + s)[..2] == "*/";
    AtoiOfDigits(s);
  }

  lemma ListReads(vs: seq<string>, min: nat, max: nat)
    requires ValidField(Values(vs), min, max) && max < INT64_LIMIT
    ensures Field(Commas(vs), min, max) == Ok(OneOf(Listed(vs)))
  {
    hide Commas, Listed, PartValues;
    forall i | 0 <= i < |vs| ensures ',' !in vs[i] {}
    SplitCommas(vs);
    PartsMean(vs, min, max);
    FirstDigit(vs);
  }

  /** A written field is read as what it says. */
  lemma FieldReads(f: Written, min: nat, max: nat)
    requires ValidField(f, min, max) && max < INT64_LIMIT
    ensures Field(FieldText(f), min, max) == Ok(Meaning(f, min))
  {
    match f {
      case Star =>
      case Step(s) =>
        StepReads(s, min, max);
      case Values(vs) =>
        ListReads(vs, min, max);
    }
  }

  lemma FirstDigit(vs: seq<string>)
    requires vs != [] && Numbers(vs)
    ensures Commas(vs) != "" && IsDigit(Commas(vs)[0])
  {}

  // ----- Whole expressions

  predicate NoSpaces(s: string) {
    forall i | 0 <= i < |s| :: !IsSpace(s[i])
  }

  lemma FieldHasNoSpaces(f: Written, min: nat, max: nat)
    requires ValidField(f, min, max)
    ensures FieldText(f) != "" && NoSpaces(FieldText(f))
  {
    match f {
      case Star =>
      case Step(_) =>
      case Values(vs) =>
        FirstDigit(vs);
        CommasHaveNoSpaces(vs);
    }
  }

  lemma {:induction false} CommasHaveNoSpaces(vs: seq<string>)
    requires vs != [] && Numbers(vs)
    ensures NoSpaces(Commas(vs))
  {
    if |vs| > 1 {
      CommasHaveNoSpaces(vs[1..]);
    }
  }

  /** White space before, between and after fields. */
  predicate AllSpaces(s: string) {
    forall i | 0 <= i < |s| :: IsSpace(s[i])
  }

  lemma {:induction false} SpacesVanish(gap: string, rest: string)
    requires AllSpaces(gap)
    ensures Text.Fields(gap + rest) == Text.Fields(rest)
  {
    if gap == "" {
      assert gap + rest == rest;
    } else {
      SpacesVanish(gap[1..], rest);
      assert (gap + rest)[1..] == gap[1..] + rest;
    }
  }

  lemma {:induction false} WordBegun(begun: string, word: string, rest: string)
    requires NoSpaces(word)
    decreases word
    ensures FieldsFrom(word + rest, begun) == FieldsFrom(rest, begun + word)
  {
    if word == "" {
      assert word + rest == rest && begun + word == begun;
    } else {
      WordBegun(begun + [word[0]], word[1..], rest);
      assert (word + rest)[1..] == word[1..] + rest && begun + [word[0]] + word[1..] == begun + word;
    }
  }

  /** A word and the white space after it. */
  lemma OneWord(word: string, gap: string, rest: string)
    requires word != "" && NoSpaces(word) && AllSpaces(gap) && (gap != "" || rest == "")
    ensures Text.Fields(word + gap + rest) == [word] + Text.Fields(rest)
  {
    assert word + gap + rest == word + (gap + rest);
    WordBegun("", word, gap + rest);
    assert "" + word == word;
    if gap == "" {
      assert gap + rest == "";
    } else {
      assert (gap + rest)[1..] == gap[1..] + rest;
      SpacesVanish(gap[1..], rest);
    }
  }

  function Words(words: seq<string>, gaps: seq<string>): string
    requires |words| == |gaps|
  {
    if words == [] then "" else words[0] + gaps[0] + Words(words[1..], gaps[1..])
  }

  lemma {:induction false} WordsSplit(words: seq<string>, gaps: seq<string>)
    requires |words| == |gaps|
    requires forall i | 0 <= i < |words| :: words[i] != "" && NoSpaces(words[i])
    requires forall i | 0 <= i < |gaps| :: AllSpaces(gaps[i]) && (gaps[i] != "" || i == |gaps| - 1)
    ensures Text.Fields(Words(words, gaps)) == words
  {
    if words != [] {
      WordsSplit(words[1..], gaps[1..]);
      OneWord(words[0], gaps[0], Words(words[1..], gaps[1..]));
      assert words == [words[0]] + words[1..];
    }
  }

  /** What parsing does once the fields are split. */
  lemma FiveFields(expr: string, words: seq<string>)
    requires Text.Fields(expr) == words && |words| == 5
    requires Field(words[0], 0, 59).Ok? && Field(words[1], 0, 23).Ok? && Field(words[2], 1, 31).Ok?
    requires Field(words[3], 1, 12).Ok? && Field(words[4], 0, 7).Ok?
    ensures ParseCron(expr) ==
            Ok(Schedule.Fields(Field(words[0], 0, 59).value, Field(words[1], 0, 23).value, Field(words[2], 1, 31).value,
                               Field(words[3], 1, 12).value, Field(words[4], 0, 7).value))
  {
    hide Field;
  }

  datatype Expression = Expression(minute: Written, hour: Written, dom: Written, month: Written, dow: Written)

  predicate ValidExpression(e: Expression) {
    ValidField(e.minute, 0, 59) && ValidField(e.hour, 0, 23) && ValidField(e.dom, 1, 31) && ValidField(e.month, 1, 12) &&
    ValidField(e.dow, 0, 7)
  }

  function Texts(e: Expression): (texts: seq<string>)
    requires ValidExpression(e)
    ensures |texts| == 5
  {
    [FieldText(e.minute), FieldText(e.hour), FieldText(e.dom), FieldText(e.month), FieldText(e.dow)]
  }

  function Says(e: Expression): Schedule
    requires ValidExpression(e)
  {
    Schedule.Fields(Meaning(e.minute, 0), Meaning(e.hour, 0), Meaning(e.dom, 1), Meaning(e.month, 1), Meaning(e.dow, 0))
  }

  lemma TextsHaveNoSpaces(e: Expression)
    requires ValidExpression(e)
    ensures forall i | 0 <= i < 5 :: Texts(e)[i] != "" && NoSpaces(Texts(e)[i])
  {
    hide ValidField, NoSpaces, FieldText;
    FieldHasNoSpaces(e.minute, 0, 59);
    FieldHasNoSpaces(e.hour, 0, 23);
    FieldHasNoSpaces(e.dom, 1, 31);
    FieldHasNoSpaces(e.month, 1, 12);
    FieldHasNoSpaces(e.dow, 0, 7);
  }

  lemma TextsRead(e: Expression, expr: string)
    requires ValidExpression(e) && Text.Fields(expr) == Texts(e)
    ensures ParseCron(expr) == Ok(Says(e))
  {
    FieldReads(e.minute, 0, 59);
    FieldReads(e.hour, 0, 23);
    FieldReads(e.dom, 1, 31);
    FieldReads(e.month, 1, 12);
    FieldReads(e.dow, 0, 7);
    hide Field, FieldText, Meaning, ParseCron;
    FiveFields(expr, Texts(e));
  }

  /** A valid expression with any white space before, between and after its fields parses to what it says. */
  lemma ExpressionReads(e: Expression, lead: string, gaps: seq<string>)
    requires ValidExpression(e) && AllSpaces(lead) && |gaps| == 5
    requires forall i | 0 <= i < 5 :: AllSpaces(gaps[i]) && (gaps[i] != "" || i == 4)
    ensures ParseCron(lead + Words(Texts(e), gaps)) == Ok(Says(e))
  {
    hide Texts, Says, ValidExpression, Words, NoSpaces, AllSpaces, ParseCron;
    TextsHaveNoSpaces(e);
    WordsSplit(Texts(e), gaps);
    SpacesVanish(lead, Words(Texts(e), gaps));
    TextsRead(e, lead + Words(Texts(e), gaps));
  }

  // ----- When a written expression runs

  /** The values that a field names: any, every so many from the least on, or those of the list. */
  ghost predicate Names(f: Written, v: nat, min: nat)
    requires f.Step? ==> IsNumber(f.digits)
    requires f.Values? ==> Numbers(f.values)
  {
    match f
    case Star => true
    case Step(s) => exists k: nat :: v == min + k * Value(s)
    case Values(vs) => exists i :: 0 <= i < |vs| && v == Value(vs[i])
  }

  lemma NamesIff(f: Written, v: nat, min: nat, max: nat)
    requires ValidField(f, min, max) && min <= v
    ensures Admits(Meaning(f, min), v) <==> Names(f, v, min)
  {
    if f.Step? {
      MultipleIff(v - min, Value(f.digits));
    }
  }

  lemma MultipleIff(x: nat, n: nat)
    requires n > 0
    ensures x % n == 0 <==> exists k: nat :: x == k * n
  {
    if x % n == 0 {
      assert x == x / n * n;
    }
    if k: nat :| x == k * n {
      DivMod(k, 0, n);
    }
  }

  /** Every field names its part of the instant; 0 and 7 both name Sunday. */
  ghost predicate NamedAt(e: Expression, t: nat)
    requires ValidExpression(e)
  {
    var date, weekday := DateOf(DayOf(t)), Weekday(DayOf(t));
    Names(e.minute, MinuteOf(t), 0) && Names(e.hour, HourOf(t), 0) && Names(e.dom, date.day, 1) && Names(e.month, date.month, 1) &&
    (Names(e.dow, weekday, 0) || (weekday == 0 && Names(e.dow, 7, 0)))
  }

  lemma SaysIff(e: Expression, t: nat)
    requires ValidExpression(e)
    ensures Fires(Says(e), t) <==> NamedAt(e, t)
  {
    hide Names, Meaning, ValidField, Admits, DateOf, Weekday;
    var date, weekday := DateOf(DayOf(t)), Weekday(DayOf(t));
    NamesIff(e.minute, MinuteOf(t), 0, 59);
    NamesIff(e.hour, HourOf(t), 0, 23);
    NamesIff(e.dom, date.day, 1, 31);
    NamesIff(e.month, date.month, 1, 12);
    NamesIff(e.dow, weekday, 0, 7);
    NamesIff(e.dow, 7, 0, 7);
  }

  /**
   The next run of a written expression is the first start of a minute, after the given
   instant and less than 4 * 366 days after it, of which every field names its part.
   */
  lemma NextOfExpression(e: Expression, after: nat, t: nat)
    requires ValidExpression(e)
    ensures IsNext(Says(e), after, t) <==>
            t % MINUTE == 0 && after < t < after + 4 * 366 * 24 * 60 * MINUTE && NamedAt(e, t) &&
            forall u: nat | u % MINUTE == 0 && after < u < t :: !NamedAt(e, u)
  {
    hide NamedAt, Fires, Meaning, ValidField;
    SaysIff(e, t);
    forall u: nat ensures Fires(Says(e), u) <==> NamedAt(e, u) {
      SaysIff(e, u);
    }
  }

  /** Expressions that name the same instants have the same next run. */
  lemma SameNamesSameNext(e: Expression, f: Expression, after: nat, t: nat)
    requires ValidExpression(e) && ValidExpression(f)
    requires forall u: nat :: NamedAt(e, u) <==> NamedAt(f, u)
    ensures IsNext(Says(e), after, t) <==> IsNext(Says(f), after, t)
  {
    hide NamedAt, IsNext, Says, ValidExpression;
    NextOfExpression(e, after, t);
    NextOfExpression(f, after, t);
  }

  /** The list names every so many values from the least to the greatest of the range, as the step does. */
  ghost predicate Lists(vs: seq<string>, step: nat, min: nat, max: nat)
    requires Numbers(vs)
  {
    forall v: nat | min <= v <= max :: Names(Values(vs), v, min) <==> exists k: nat :: v == min + k * step
  }

  /** A step in the minute field and the list of its values have the same next run. */
  lemma StepIsList(e: Expression, digits: string, vs: seq<string>, after: nat, t: nat)
    requires ValidExpression(e) && ValidField(Step(digits), 0, 59) && ValidField(Values(vs), 0, 59)
    requires Lists(vs, Value(digits), 0, 59)
    ensures IsNext(Says(e.(minute := Step(digits))), after, t) <==> IsNext(Says(e.(minute := Values(vs))), after, t)
  {
    var a, b := e.(minute := Step(digits)), e.(minute := Values(vs));
    hide Says, IsNext;
    forall u: nat ensures NamedAt(a, u) <==> NamedAt(b, u) {
      hide DateOf, Weekday, ValidField;
      assert Names(a.minute, MinuteOf(u), 0) <==> Names(b.minute, MinuteOf(u), 0);
    }
    SameNamesSameNext(a, b, after, t);
  }

  /** The first multiple of `p` after an instant. */
  function FirstAfter(after: nat, p: nat): nat
    requires p > 0
  {
    (after / p + 1) * p
  }

  /** Every `n` minutes, for an `n` that divides the hour, is at the multiples of that many minutes. */
  lemma EveryNMinutes(digits: string, after: nat, t: nat)
    requires IsNumber(digits) && 0 < Value(digits) <= 60 && 60 % Value(digits) == 0
    ensures IsNext(Says(Expression(Step(digits), Star, Star, Star, Star)), after, t) <==> t == FirstAfter(after, Value(digits) * MINUTE)
  {
    var e := Expression(Step(digits), Star, Star, Star, Star);
    var n := Value(digits);
    hide IsNumber, Value, AllDigits, NamedAt, IsNext, Says, ValidExpression, FirstAfter;
    forall u: nat | u % MINUTE == 0 ensures NamedAt(e, u) <==> u % (n * MINUTE) == 0 {
      EveryNamed(digits, u);
    }
    FirstIsWholeMinute(after, n);
    FirstMultiple(after, n * MINUTE);
    NextNamed(e, after, t, n * MINUTE, FirstAfter(after, n * MINUTE));
  }

  /** If the named instants are the multiples of `p`, the next run is the first of them. */
  lemma NextNamed(e: Expression, after: nat, t: nat, p: nat, first: nat)
    requires ValidExpression(e) && 0 < p <= 60 * MINUTE
    requires forall u: nat | u % MINUTE == 0 :: NamedAt(e, u) <==> u % p == 0
    requires first % p == 0 && first % MINUTE == 0 && after < first <= after + p
    requires forall u: nat | u % p == 0 && after < u :: first <= u
    ensures IsNext(Says(e), after, t) <==> t == first
  {
    hide NamedAt, IsNext, Says, ValidExpression;
    NextOfExpression(e, after, t);
    assert NamedAt(e, first);
    if t == first {
      forall u: nat | u % MINUTE == 0 && after < u < t ensures !NamedAt(e, u) {
        assert u % p == 0 ==> first <= u;
      }
    }
  }

  lemma EveryNamed(digits: string, u: nat)
    requires IsNumber(digits) && 0 < Value(digits) <= 60 && 60 % Value(digits) == 0 && u % MINUTE == 0
    ensures NamedAt(Expression(Step(digits), Star, Star, Star, Star), u) <==> u % (Value(digits) * MINUTE) == 0
  {
    hide DateOf, Weekday, Value;
    MultipleIff(MinuteOf(u), Value(digits));
    MinutesOfHour(u, Value(digits));
  }

  lemma FirstIsWholeMinute(after: nat, n: nat)
    requires n > 0
    ensures FirstAfter(after, n * MINUTE) % MINUTE == 0
  {
    WholeMinutes(after / (n * MINUTE) + 1, n);
  }

  lemma WholeMinutes(k: nat, n: nat)
    ensures k * (n * MINUTE) % MINUTE == 0
  {
    assert k * (n * MINUTE) == k * n * MINUTE;
    DivMod(k * n, 0, MINUTE);
  }

  /** The first multiple after an instant. */
  lemma FirstMultiple(after: nat, n: nat)
    requires 0 < n <= 60 * MINUTE
    ensures var m := FirstAfter(after, n);
            m % n == 0 && after < m <= after + n && forall u: nat | u % n == 0 && after < u :: m <= u
  {
    var q := after / n;
    assert after == q * n + after % n && (q + 1) * n == q * n + n;
    DivMod(q + 1, 0, n);
    forall u: nat | u % n == 0 && after < u ensures (q + 1) * n <= u {
      assert u == u / n * n;
      if u / n <= q {
        Multiples(u / n, q, n);
      } else {
        Multiples(q + 1, u / n, n);
      }
    }
  }

  lemma MinutesOfHour(u: nat, n: nat)
    requires u % MINUTE == 0 && n > 0 && 60 % n == 0
    ensures MinuteOf(u) % n == 0 <==> u % (n * MINUTE) == 0
  {
    hide MinuteOf;
    var m := u / MINUTE;
    MinuteIs(m);
    HourRest(m, n);
    ScaledRest(m, n);
  }

  lemma HourRest(m: nat, n: nat)
    requires n > 0 && 60 % n == 0
    ensures m % 60 % n == m % n
  {
    var q, h := 60 / n, m / 60;
    assert 60 == q * n;
    assert h * 60 == h * (q * n) == h * q * n;
    SameRest(h * q, m % 60, n);
  }

  lemma MinuteIs(m: nat)
    ensures MinuteOf(m * MINUTE) == m % 60
  {
    PartsOfInstant(m / 60 / 24, m / 60 % 24, m % 60);
  }

  lemma ScaledRest(m: nat, n: nat)
    requires n > 0
    ensures m * MINUTE % (n * MINUTE) == m % n * MINUTE
  {
    var d, r := m / n, m % n;
    assert m * MINUTE == (d * n + r) * MINUTE == d * n * MINUTE + r * MINUTE;
    assert d * n * MINUTE == d * (n * MINUTE);
    DivMod(d, r * MINUTE, n * MINUTE);
  }

  lemma SameRest(a: nat, b: nat, n: nat)
    requires n > 0
    ensures (a * n + b) % n == b % n
  {
    assert b == b / n * n + b % n;
    assert a * n + b == (a + b / n) * n + b % n;
    DivMod(a + b / n, b % n, n);
  }
}
