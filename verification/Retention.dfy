/**
 Which backups src/backup/retention.go deletes. Dates are instants, sizes are what 64-bit
 unsigned arithmetic adds up, and files of one date are in no particular order: the sort in
 the source is not stable, so nothing below depends on what it does with ties.
 */
module Retention {
  import opened Sorting

  const UINT64: nat := 0x1_0000_0000_0000_0000

  /** The tiers, and the incrementals that belong to none. */
  datatype Class = Daily | Weekly | Monthly | Yearly | Incremental

  datatype File = File(name: string, date: int, size: nat, tier: Class)

  datatype Policy = Policy(maxBackups: int, keepWeekly: int, keepMonthly: int, keepYearly: int)

  /** How many files of a tier stay: at least one daily, and a negative limit keeps none. */
  function Limit(r: Policy, c: Class): nat
    requires c != Incremental
  {
    match c
    case Daily => if r.maxBackups <= 0 then 1 else r.maxBackups
    case Weekly => AtLeastZero(r.keepWeekly)
    case Monthly => AtLeastZero(r.keepMonthly)
    case Yearly => AtLeastZero(r.keepYearly)
  }

  function AtLeastZero(n: int): nat {
    if n < 0 then 0 else n
  }

  function Tier(files: seq<File>, c: Class): seq<File> {
    if files == [] then []
    else
      var rest := Tier(files[..|files| - 1], c);
      if files[|files| - 1].tier == c then rest + [files[|files| - 1]] else rest
  }

  function Total(files: seq<File>): nat {
    if files == [] then 0 else Total(files[..|files| - 1]) + files[|files| - 1].size
  }

  predicate NoOlder(f: File, g: File) {
    f.date >= g.date
  }

  predicate NoNewer(f: File, g: File) {
    f.date <= g.date
  }

  // ----- The count pass

  /** `held` and `gone` are the newest `n` files and the others. */
  predicate Newest(tier: seq<File>, n: nat, held: seq<File>, gone: seq<File>) {
    multiset(held) + multiset(gone) == multiset(tier) &&
    |held| == (if n < |tier| then n else |tier|) &&
    forall f, g | f in held && g in gone :: f.date >= g.date
  }

  /** The same, with the others added to what was deleted before. */
  ghost predicate Parted(tier: seq<File>, n: nat, before: seq<File>, held: seq<File>, after: seq<File>) {
    exists gone :: after == before + gone && Newest(tier, n, held, gone)
  }

  method TierPrune(tier: seq<File>, keepN: int, deleted: seq<File>) returns (held: seq<File>, deleted': seq<File>)
    ensures Parted(tier, AtLeastZero(keepN), deleted, held, deleted')
  {
    var n := if keepN < 0 then 0 else keepN;
    var sorted := Sort(tier, NoOlder);
    assert |sorted| == |multiset(sorted)| == |tier|;
    if n >= |sorted| {
      assert deleted + [] == deleted && Newest(tier, n, sorted, []);
      return sorted, deleted;
    }
    SortedParts(sorted, NoOlder, n);
    assert Newest(tier, n, sorted[..n], sorted[n..]);
    return sorted[..n], deleted + sorted[n..];
  }

  // ----- The size cap

  /** The first place in date order from which on the files fit the cap, as the 64-bit total sees them. */
  predicate FirstFit(order: seq<File>, cap: nat, i: nat) {
    i <= |order| && Total(order[i..]) % UINT64 <= cap && forall j | 0 <= j < i :: Total(order[j..]) % UINT64 > cap
  }

  predicate InDateOrder(held: seq<File>, order: seq<File>) {
    multiset(order) == multiset(held) && Sorted(order, NoNewer)
  }

  /**
   What the cap removes and leaves. Files that seem to fit are left as they are; otherwise
   they are put in date order, and the ones before the first fit go.
   */
  predicate Capped(held: seq<File>, cap: nat, extra: seq<File>, rest: seq<File>) {
    if Total(held) % UINT64 <= cap then extra == [] && rest == held
    else InDateOrder(held, extra + rest) && FirstFit(extra + rest, cap, |extra|)
  }

  method SizeCapPrune(held: seq<File>, cap: nat) returns (extra: seq<File>)
    ensures exists rest :: Capped(held, cap, extra, rest)
  {
    hide Total, Capped;
    var total := WrappedTotal(held);
    extra := [];
    if total <= cap {
      NothingRemoved(held, cap);
      return;
    }
    var sorted := Sort(held, NoNewer);
    SameTotal(sorted, held);
    assert sorted[0..] == sorted;
    var i := 0;
    while i < |sorted| && total > cap
      invariant 0 <= i <= |sorted| && extra == sorted[..i]
      invariant total == Total(sorted[i..]) % UINT64
      invariant forall j | 0 <= j < i :: Total(sorted[j..]) % UINT64 > cap
    {
      Subtraction(sorted, i);
      // A total that never wrapped is never less than what is subtracted.
      if Total(held) < UINT64 {
        NoStepUnderflows(held, sorted, i);
        assert total >= sorted[i].size;
      }
      extra := extra + [sorted[i]];
      total := (total - sorted[i].size) % UINT64;
      i := i + 1;
    }
    NothingTotals(sorted[i..]);
    CapReached(held, cap, sorted, i);
  }

  /** One step of the loop in 64-bit arithmetic. */
  lemma Subtraction(order: seq<File>, i: nat)
    requires i < |order|
    ensures Total(order[i..]) == order[i].size + Total(order[i + 1..])
    ensures (Total(order[i..]) % UINT64 - order[i].size) % UINT64 == Total(order[i + 1..]) % UINT64
  {
    FirstOfTotal(order[i..]);
    assert order[i..][1..] == order[i + 1..];
    SubtractWraps(Total(order[i + 1..]), order[i].size);
  }

  /** The running total is less than the size the step subtracts from it. */
  predicate Underflows(order: seq<File>, i: nat)
    requires i < |order|
  {
    Total(order[i..]) % UINT64 < order[i].size
  }

  /** A step underflows exactly when the true totals before and after it lie on two sides of a multiple of 2^64. */
  lemma StepUnderflowsIff(order: seq<File>, i: nat)
    requires i < |order| && order[i].size < UINT64
    ensures Underflows(order, i) <==> Total(order[i..]) / UINT64 != Total(order[i + 1..]) / UINT64
  {
    hide Total;
    Subtraction(order, i);
    Borrow(Total(order[i + 1..]), order[i].size);
  }

  lemma Borrow(a: nat, b: nat)
    requires b < UINT64
    ensures (a + b) % UINT64 < b <==> (a + b) / UINT64 != a / UINT64
  {}

  /** Files that fit 64 bits together never underflow, in whatever order they go. */
  lemma NoStepUnderflows(held: seq<File>, order: seq<File>, i: nat)
    requires Total(held) < UINT64 && multiset(order) == multiset(held) && i < |order|
    ensures !Underflows(order, i)
  {
    hide Total;
    SameTotal(order, held);
    assert order[0..] == order;
    SuffixTotals(order, 0, i);
    Subtraction(order, i);
    Fits(Total(order[i..]));
  }

  lemma Fits(x: nat)
    requires x < UINT64
    ensures x % UINT64 == x
  {}

  /** Three files of the largest size do: the first step subtracts more than the wrapped total. */
  lemma LargeFilesUnderflow(f: File)
    requires f.size == 0x7FFF_FFFF_FFFF_FFFF
    ensures Total([f, f, f]) % UINT64 > 10 && Underflows([f, f, f], 0)
  {
    TotalOfThree(f);
    assert [f, f, f][0..] == [f, f, f];
  }

  lemma TotalOfThree(f: File)
    ensures Total([f, f, f]) == 3 * f.size
  {
    assert [f, f][..1] == [f] && [f, f, f][..2] == [f, f];
    assert Total([f]) == f.size && Total([f, f]) == 2 * f.size;
  }

  lemma NothingRemoved(held: seq<File>, cap: nat)
    requires Total(held) % UINT64 <= cap
    ensures Capped(held, cap, [], held)
  {
    hide Total;
  }

  lemma CapReached(held: seq<File>, cap: nat, sorted: seq<File>, i: nat)
    requires InDateOrder(held, sorted) && Total(held) % UINT64 > cap && FirstFit(sorted, cap, i)
    ensures Capped(held, cap, sorted[..i], sorted[i..])
  {
    hide Total, InDateOrder;
    assert sorted[..i] + sorted[i..] == sorted;
  }

  /** In either case: every file is removed or left, no removed one is newer, and the rest seems to fit. */
  lemma CappedParts(held: seq<File>, cap: nat, extra: seq<File>, rest: seq<File>)
    requires Capped(held, cap, extra, rest)
    ensures multiset(extra) + multiset(rest) == multiset(held)
    ensures forall f, g | f in extra && g in rest :: f.date <= g.date
    ensures Total(rest) % UINT64 <= cap
  {
    hide Total;
    if extra != [] || rest != held {
      var order := extra + rest;
      SortedParts(order, NoNewer, |extra|);
      assert order[..|extra|] == extra && order[|extra|..] == rest;
    }
  }

  /** The sum as unsigned 64-bit addition computes it. */
  method WrappedTotal(files: seq<File>) returns (total: nat)
    ensures total == Total(files) % UINT64
  {
    total := 0;
    for i := 0 to |files|
      invariant total == Total(files[..i]) % UINT64
    {
      assert files[..i + 1][..i] == files[..i];
      AddWraps(Total(files[..i]), files[i].size);
      total := (total + files[i].size) % UINT64;
    }
    assert files[..|files|] == files;
  }

  lemma NothingTotals(files: seq<File>)
    ensures files == [] ==> Total(files) % UINT64 == 0
  {}

  lemma AddWraps(a: nat, b: nat)
    ensures (a % UINT64 + b) % UINT64 == (a + b) % UINT64
  {}

  lemma SubtractWraps(a: nat, b: nat)
    ensures ((b + a) % UINT64 - b) % UINT64 == a % UINT64
  {}

  lemma {:induction false} FirstOfTotal(files: seq<File>)
    requires files != []
    ensures Total(files) == files[0].size + Total(files[1..])
  {
    if |files| > 1 {
      FirstOfTotal(files[..|files| - 1]);
      assert files[1..][..|files| - 2] == files[..|files| - 1][1..];
    }
  }

  lemma {:induction false} TotalOfBoth(a: seq<File>, b: seq<File>)
    ensures Total(a + b) == Total(a) + Total(b)
  {
    if b == [] {
      assert a + b == a;
    } else {
      var k := |b| - 1;
      TotalOfBoth(a, b[..k]);
      assert (a + b)[..|a| + k] == a + b[..k];
    }
  }

  lemma WithoutOne(files: seq<File>, i: nat)
    requires i < |files|
    ensures var rest := files[..i] + files[i + 1..];
            multiset(files) == multiset(rest) + multiset{files[i]} && Total(files) == Total(rest) + files[i].size
  {
    assert files == files[..i] + ([files[i]] + files[i + 1..]);
    TotalOfBoth(files[..i], [files[i]] + files[i + 1..]);
    TotalOfBoth([files[i]], files[i + 1..]);
    TotalOfBoth(files[..i], files[i + 1..]);
    assert Total([files[i]]) == files[i].size;
  }

  lemma LessOne(a: multiset<File>, b: multiset<File>, f: File)
    requires a + multiset{f} <= b + multiset{f}
    ensures a <= b
  {
    forall g: File ensures a[g] <= b[g] {
      assert (a + multiset{f})[g] <= (b + multiset{f})[g];
    }
  }

  lemma {:induction false} PartOfTotal(a: seq<File>, b: seq<File>)
    requires multiset(a) <= multiset(b)
    ensures Total(a) <= Total(b)
  {
    if a != [] {
      var k := |a| - 1;
      assert a == a[..k] + [a[k]];
      assert a[k] in multiset(b);
      var i :| 0 <= i < |b| && b[i] == a[k];
      WithoutOne(b, i);
      LessOne(multiset(a[..k]), multiset(b[..i] + b[i + 1..]), a[k]);
      PartOfTotal(a[..k], b[..i] + b[i + 1..]);
    }
  }

  lemma SameTotal(a: seq<File>, b: seq<File>)
    requires multiset(a) == multiset(b)
    ensures Total(a) == Total(b)
  {
    PartOfTotal(a, b);
    PartOfTotal(b, a);
  }

  // ----- The sweep

  datatype Sweep = Sweep(held: seq<File>, counted: seq<File>, extra: seq<File>, rest: seq<File>)

  /** Each tier holds its newest files, and incrementals are not touched. */
  ghost predicate CountPass(files: seq<File>, r: Policy, held: seq<File>, counted: seq<File>) {
    (forall c | c != Incremental :: Newest(Tier(files, c), Limit(r, c), Tier(held, c), Tier(counted, c))) &&
    Tier(held, Incremental) == [] && Tier(counted, Incremental) == []
  }

  /** What a sweep over `files` does: the count pass of each tier, and the cap over all that it held. */
  ghost predicate Swept(files: seq<File>, r: Policy, cap: nat, capEnabled: bool, s: Sweep) {
    CountPass(files, r, s.held, s.counted) &&
    if capEnabled && cap > 0 then Capped(s.held, cap, s.extra, s.rest) else s.extra == [] && s.rest == s.held
  }

  method SelectForDeletion(files: seq<File>, r: Policy, cap: nat, capEnabled: bool) returns (toDelete: seq<File>)
    requires cap < UINT64
    ensures exists s: Sweep :: toDelete == s.counted + s.extra && Swept(files, r, cap, capEnabled, s)
  {
    hide CountPass, Capped, Total;
    var kept, counted := PruneTiers(files, r);
    toDelete := counted;
    ghost var s := Sweep(kept, counted, [], kept);
    if capEnabled && cap > 0 {
      var extra := SizeCapPrune(kept, cap);
      ghost var rest :| Capped(kept, cap, extra, rest);
      s := Sweep(kept, counted, extra, rest);
      toDelete := toDelete + extra;
    }
    assert toDelete == s.counted + s.extra && Swept(files, r, cap, capEnabled, s);
  }

  /** The count pass: what the four tiers hold, and what they give up. */
  method PruneTiers(files: seq<File>, r: Policy) returns (kept: seq<File>, counted: seq<File>)
    ensures CountPass(files, r, kept, counted)
  {
    hide Parted, CountPass;
    var yearly, monthly, weekly, daily := Tiers(files);
    var maxBackups := if r.maxBackups <= 0 then 1 else r.maxBackups;
    var hy, y := TierPrune(yearly, r.keepYearly, []);
    var hm, m := TierPrune(monthly, r.keepMonthly, y);
    var hw, w := TierPrune(weekly, r.keepWeekly, m);
    var hd, d := TierPrune(daily, maxBackups, w);
    kept, counted := hy + hm + hw + hd, d;
    FourPasses(files, r, hy, y, hm, m, hw, w, hd, d);
  }

  lemma OnePass(files: seq<File>, r: Policy, c: Class, before: seq<File>, held: seq<File>, after: seq<File>) returns (gone: seq<File>)
    requires c != Incremental && Parted(Tier(files, c), Limit(r, c), before, held, after)
    ensures after == before + gone && Newest(Tier(files, c), Limit(r, c), held, gone)
    ensures AllOf(held, c) && AllOf(gone, c)
  {
    hide Tier;
    gone :| after == before + gone && Newest(Tier(files, c), Limit(r, c), held, gone);
    SplitIsOfTier(files, held, gone, c, Limit(r, c));
  }

  lemma FourPasses(files: seq<File>, r: Policy, hy: seq<File>, y: seq<File>, hm: seq<File>, m: seq<File>,
                   hw: seq<File>, w: seq<File>, hd: seq<File>, d: seq<File>)
    requires Parted(Tier(files, Yearly), Limit(r, Yearly), [], hy, y)
    requires Parted(Tier(files, Monthly), Limit(r, Monthly), y, hm, m)
    requires Parted(Tier(files, Weekly), Limit(r, Weekly), m, hw, w)
    requires Parted(Tier(files, Daily), Limit(r, Daily), w, hd, d)
    ensures CountPass(files, r, hy + hm + hw + hd, d)
  {
    hide Parted, Tier, Newest, AllOf, Limit;
    var gy := OnePass(files, r, Yearly, [], hy, y);
    var gm := OnePass(files, r, Monthly, y, hm, m);
    var gw := OnePass(files, r, Weekly, m, hw, w);
    var gd := OnePass(files, r, Daily, w, hd, d);
    assert d == gy + gm + gw + gd;
    TiersApart(hy, hm, hw, hd);
    TiersApart(gy, gm, gw, gd);
  }

  method Tiers(files: seq<File>) returns (yearly: seq<File>, monthly: seq<File>, weekly: seq<File>, daily: seq<File>)
    ensures yearly == Tier(files, Yearly) && monthly == Tier(files, Monthly)
    ensures weekly == Tier(files, Weekly) && daily == Tier(files, Daily)
  {
    yearly, monthly, weekly, daily := [], [], [], [];
    for i := 0 to |files|
      invariant yearly == Tier(files[..i], Yearly) && monthly == Tier(files[..i], Monthly)
      invariant weekly == Tier(files[..i], Weekly) && daily == Tier(files[..i], Daily)
    {
      assert files[..i + 1][..i] == files[..i];
      match files[i].tier {
        case Yearly => yearly := yearly + [files[i]];
        case Monthly => monthly := monthly + [files[i]];
        case Weekly => weekly := weekly + [files[i]];
        case Daily => daily := daily + [files[i]];
        case Incremental =>
      }
    }
    assert files[..|files|] == files;
  }

  predicate AllOf(files: seq<File>, c: Class) {
    forall f | f in files :: f.tier == c
  }

  lemma {:induction false} TierMembers(files: seq<File>, c: Class, f: File)
    ensures multiset(Tier(files, c))[f] == if f.tier == c then multiset(files)[f] else 0
  {
    if files != [] {
      var k := |files| - 1;
      TierMembers(files[..k], c, f);
      assert files == files[..k] + [files[k]];
    }
  }

  /** What a tier was split into is of that tier. */
  lemma SplitIsOfTier(files: seq<File>, held: seq<File>, gone: seq<File>, c: Class, n: nat)
    requires Newest(Tier(files, c), n, held, gone)
    ensures AllOf(held, c) && AllOf(gone, c)
  {
    forall f | f in held || f in gone ensures f.tier == c {
      TierMembers(files, c, f);
      assert f in multiset(held) + multiset(gone);
      assert f in multiset(Tier(files, c));
    }
  }

  lemma {:induction false} TierOfAll(files: seq<File>, c: Class, d: Class)
    requires AllOf(files, c)
    ensures Tier(files, d) == if c == d then files else []
  {
    if files != [] {
      var k := |files| - 1;
      TierOfAll(files[..k], c, d);
      assert files == files[..k] + [files[k]];
    }
  }

  lemma {:induction false} TierOfBoth(a: seq<File>, b: seq<File>, c: Class)
    ensures Tier(a + b, c) == Tier(a, c) + Tier(b, c)
  {
    if b == [] {
      assert a + b == a;
    } else {
      var k := |b| - 1;
      TierOfBoth(a, b[..k], c);
      assert (a + b)[..|a| + k] == a + b[..k];
    }
  }

  function OfClass(y: seq<File>, m: seq<File>, w: seq<File>, d: seq<File>, c: Class): seq<File> {
    match c
    case Yearly => y
    case Monthly => m
    case Weekly => w
    case Daily => d
    case Incremental => []
  }

  lemma TierOfFour(y: seq<File>, m: seq<File>, w: seq<File>, d: seq<File>, c: Class)
    requires AllOf(y, Yearly) && AllOf(m, Monthly) && AllOf(w, Weekly) && AllOf(d, Daily)
    ensures Tier(y + m + w + d, c) == OfClass(y, m, w, d, c)
  {
    hide Tier, AllOf;
    TierOfBoth(y + m + w, d, c);
    TierOfBoth(y + m, w, c);
    TierOfBoth(y, m, c);
    TierOfAll(y, Yearly, c);
    TierOfAll(m, Monthly, c);
    TierOfAll(w, Weekly, c);
    TierOfAll(d, Daily, c);
  }

  lemma TiersApart(y: seq<File>, m: seq<File>, w: seq<File>, d: seq<File>)
    requires AllOf(y, Yearly) && AllOf(m, Monthly) && AllOf(w, Weekly) && AllOf(d, Daily)
    ensures forall c :: Tier(y + m + w + d, c) == OfClass(y, m, w, d, c)
  {
    hide Tier, AllOf, OfClass;
    forall c: Class ensures Tier(y + m + w + d, c) == OfClass(y, m, w, d, c) {
      TierOfFour(y, m, w, d, c);
    }
  }

  // ----- What every sweep guarantees

  /**
   Every file is deleted or kept, exactly as often as it was there, except the incrementals:
   they are neither.
   */
  lemma EveryFileOnce(files: seq<File>, r: Policy, cap: nat, capEnabled: bool, s: Sweep, f: File)
    requires Swept(files, r, cap, capEnabled, s)
    ensures multiset(s.counted + s.extra)[f] + multiset(s.rest)[f] ==
            if f.tier == Incremental then 0 else multiset(files)[f]
  {
    var c := f.tier;
    TierMembers(files, c, f);
    TierMembers(s.held, c, f);
    TierMembers(s.counted, c, f);
    if c != Incremental {
      assert Newest(Tier(files, c), Limit(r, c), Tier(s.held, c), Tier(s.counted, c));
      assert (multiset(Tier(s.held, c)) + multiset(Tier(s.counted, c)))[f] == multiset(Tier(files, c))[f];
    }
    SweptParts(files, r, cap, capEnabled, s);
    assert (multiset(s.extra) + multiset(s.rest))[f] == multiset(s.held)[f];
  }

  lemma SweptParts(files: seq<File>, r: Policy, cap: nat, capEnabled: bool, s: Sweep)
    requires Swept(files, r, cap, capEnabled, s)
    ensures multiset(s.extra) + multiset(s.rest) == multiset(s.held)
    ensures capEnabled && cap > 0 ==> Total(s.rest) % UINT64 <= cap
  {
    if capEnabled && cap > 0 {
      CappedParts(s.held, cap, s.extra, s.rest);
    }
  }

  /** A true total that the 64-bit total takes for one within the cap. */
  predicate Misleading(total: nat, cap: nat) {
    total >= UINT64 && total % UINT64 <= cap
  }

  /** No run of newest files, in this date order, has a misleading total. */
  predicate Honest(order: seq<File>, cap: nat) {
    forall j | 0 <= j <= |order| :: !Misleading(Total(order[j..]), cap)
  }

  /**
   For the date order that the sort chose: what the cap leaves is truly within it exactly
   when no run of newest files has a total of at least 2^64 that wraps to one within it.
   */
  lemma CapKeptIff(held: seq<File>, cap: nat, extra: seq<File>, rest: seq<File>, order: seq<File>)
    requires cap < UINT64 && Capped(held, cap, extra, rest) && InDateOrder(held, order)
    requires Total(held) % UINT64 > cap ==> order == extra + rest
    ensures Total(rest) <= cap <==> Honest(order, cap)
  {
    hide Total;
    CappedParts(held, cap, extra, rest);
    Residue(Total(rest), cap);
    SameTotal(order, held);
    var i := |extra|;
    assert order[0..] == order;
    if Total(held) % UINT64 > cap {
      assert order[i..] == rest;
    }
    if Total(rest) < UINT64 {
      forall j | 0 <= j <= |order| ensures !Misleading(Total(order[j..]), cap) {
        if j > i {
          SuffixTotals(order, i, j);
        }
      }
    }
  }

  lemma SuffixTotals(order: seq<File>, i: nat, j: nat)
    requires i <= j <= |order|
    ensures Total(order[j..]) <= Total(order[i..])
  {
    assert order[i..] == order[i..j] + order[j..];
    TotalOfBoth(order[i..j], order[j..]);
  }

  /** Whatever the sort does with files of one date, the cap is kept exactly when every date order is honest. */
  lemma CapKeptForAllOrdersIff(held: seq<File>, cap: nat)
    requires cap < UINT64
    ensures (forall extra, rest | Capped(held, cap, extra, rest) :: Total(rest) <= cap) <==>
            forall order | InDateOrder(held, order) :: Honest(order, cap)
  {
    hide Total, Capped, InDateOrder, Honest;
    if forall order | InDateOrder(held, order) :: Honest(order, cap) {
      forall extra, rest | Capped(held, cap, extra, rest) ensures Total(rest) <= cap {
        var order := OrderOf(held, cap, extra, rest);
        CapKeptIff(held, cap, extra, rest, order);
      }
    }
    if forall extra, rest | Capped(held, cap, extra, rest) :: Total(rest) <= cap {
      forall order | InDateOrder(held, order) ensures Honest(order, cap) {
        var extra, rest := FitOf(held, cap, order);
        CapKeptIff(held, cap, extra, rest, order);
      }
    }
  }

  /** A date order that goes with an outcome. */
  lemma OrderOf(held: seq<File>, cap: nat, extra: seq<File>, rest: seq<File>) returns (order: seq<File>)
    requires Capped(held, cap, extra, rest)
    ensures InDateOrder(held, order) && (Total(held) % UINT64 > cap ==> order == extra + rest)
  {
    hide Total;
    if Total(held) % UINT64 > cap {
      order := extra + rest;
    } else {
      order := SortedExists(held, NoNewer);
    }
  }

  /** The outcome that goes with a date order. */
  lemma FitOf(held: seq<File>, cap: nat, order: seq<File>) returns (extra: seq<File>, rest: seq<File>)
    requires InDateOrder(held, order)
    ensures Capped(held, cap, extra, rest) && (Total(held) % UINT64 > cap ==> order == extra + rest)
  {
    if Total(held) % UINT64 <= cap {
      extra, rest := [], held;
    } else {
      var i := FindFit(order, cap, 0);
      extra, rest := order[..i], order[i..];
      CapReached(held, cap, order, i);
      assert extra + rest == order;
    }
  }

  lemma {:induction false} FindFit(order: seq<File>, cap: nat, from: nat) returns (i: nat)
    requires from <= |order| && forall j | 0 <= j < from :: Total(order[j..]) % UINT64 > cap
    ensures FirstFit(order, cap, i)
    decreases |order| - from
  {
    NothingTotals(order[from..]);
    hide Total;
    if Total(order[from..]) % UINT64 <= cap {
      i := from;
    } else {
      i := FindFit(order, cap, from + 1);
    }
  }

  /**
   So the survivors of a sweep are truly within the cap exactly when the held files, in the
   date order that the sort chose, are honest; and they are if all given files fit 64 bits.
   */
  lemma SurvivorsWithinCap(files: seq<File>, r: Policy, cap: nat, s: Sweep, order: seq<File>)
    requires 0 < cap < UINT64 && Swept(files, r, cap, true, s) && InDateOrder(s.held, order)
    requires Total(s.held) % UINT64 > cap ==> order == s.extra + s.rest
    ensures Total(s.rest) <= cap <==> Honest(order, cap)
    ensures Total(files) < UINT64 ==> Total(s.rest) <= cap
  {
    CapKeptIff(s.held, cap, s.extra, s.rest, order);
    SweptParts(files, r, cap, true, s);
    hide Swept, Capped, Total;
    Residue(Total(s.rest), cap);
    if Total(files) < UINT64 {
      forall f: File ensures multiset(s.rest)[f] <= multiset(files)[f] {
        EveryFileOnce(files, r, cap, true, s, f);
      }
      PartOfTotal(s.rest, files);
    }
  }

  lemma Residue(x: nat, cap: nat)
    requires x % UINT64 <= cap < UINT64
    ensures x <= cap <==> x < UINT64
  {}

  /** No victim is newer than a survivor, and with any number of victims fewer the files would truly exceed the cap. */
  lemma NoVictimTooMany(files: seq<File>, r: Policy, cap: nat, s: Sweep, fewer: nat)
    requires 0 < cap < UINT64 && Swept(files, r, cap, true, s) && fewer < |s.extra|
    ensures Total(s.extra[fewer..] + s.rest) > cap
    ensures forall f, g | f in s.extra && g in s.rest :: f.date <= g.date
  {
    CappedParts(s.held, cap, s.extra, s.rest);
    hide Total;
    assert (s.extra + s.rest)[fewer..] == s.extra[fewer..] + s.rest;
  }

  /** Three files of the largest size: their total wraps around below a cap that it really exceeds. */
  lemma WrappedTotalKeepsTooMuch(f: File, r: Policy, s: Sweep)
    requires f.size == 0x7FFF_FFFF_FFFF_FFFF && f.tier == Daily && r.maxBackups == 3
    requires Swept([f, f, f], r, f.size, true, s)
    ensures s.counted + s.extra == [] && Total(s.rest) > f.size
  {
    ThreeFiles(f);
    hide Total, Tier, Newest, CountPass;
    CountedNone([f, f, f], r, f.size, true, s);
    SameTotal(s.held, [f, f, f]);
    assert Capped(s.held, f.size, s.extra, s.rest) && s.extra == [] && s.rest == s.held;
  }

  lemma ThreeFiles(f: File)
    requires f.tier == Daily
    ensures forall c: Class :: Tier([f, f, f], c) == if c == Daily then [f, f, f] else []
    ensures Total([f, f, f]) == 3 * f.size
    ensures f.size == 0x7FFF_FFFF_FFFF_FFFF ==> (3 * f.size) % UINT64 <= f.size
  {
    forall c: Class ensures Tier([f, f, f], c) == if c == Daily then [f, f, f] else [] {
      TierOfAll([f, f, f], Daily, c);
    }
    TotalOfThree(f);
  }

  /** No tier holds more than its limit. */
  predicate WithinLimits(files: seq<File>, r: Policy) {
    |Tier(files, Daily)| <= Limit(r, Daily) && |Tier(files, Weekly)| <= Limit(r, Weekly) &&
    |Tier(files, Monthly)| <= Limit(r, Monthly) && |Tier(files, Yearly)| <= Limit(r, Yearly)
  }

  lemma CountedNone(files: seq<File>, r: Policy, cap: nat, capEnabled: bool, s: Sweep)
    requires Swept(files, r, cap, capEnabled, s) && WithinLimits(files, r)
    ensures s.counted == []
    ensures Tier(files, Incremental) == [] ==> multiset(s.held) == multiset(files)
  {
    forall c: Class ensures Tier(s.counted, c) == [] {
      if c != Incremental {
        assert Newest(Tier(files, c), Limit(r, c), Tier(s.held, c), Tier(s.counted, c));
        assert |multiset(Tier(s.held, c)) + multiset(Tier(s.counted, c))| == |multiset(Tier(files, c))|;
      }
    }
    if s.counted != [] {
      TierMembers(s.counted, s.counted[0].tier, s.counted[0]);
    }
    if Tier(files, Incremental) == [] {
      forall f: File ensures multiset(s.held)[f] == multiset(files)[f] {
        TierMembers(files, f.tier, f);
        TierMembers(s.held, f.tier, f);
        if f.tier != Incremental {
          assert Newest(Tier(files, f.tier), Limit(r, f.tier), Tier(s.held, f.tier), Tier(s.counted, f.tier));
        }
      }
    }
  }

  lemma TierSize(a: seq<File>, b: seq<File>, c: Class)
    requires multiset(a) <= multiset(b)
    ensures |Tier(a, c)| <= |Tier(b, c)|
  {
    forall f: File ensures multiset(Tier(a, c))[f] <= multiset(Tier(b, c))[f] {
      TierMembers(a, c, f);
      TierMembers(b, c, f);
    }
    assert multiset(Tier(b, c)) == multiset(Tier(a, c)) + (multiset(Tier(b, c)) - multiset(Tier(a, c)));
  }

  /** A second sweep over what a sweep left, with any incrementals beside it, deletes nothing. */
  lemma SecondSweepDeletesNothing(files: seq<File>, r: Policy, cap: nat, capEnabled: bool, s: Sweep,
                                  left: seq<File>, incrementals: seq<File>, s': Sweep)
    requires Swept(files, r, cap, capEnabled, s)
    requires AllOf(incrementals, Incremental) && multiset(left) == multiset(s.rest) + multiset(incrementals)
    requires Swept(left, r, cap, capEnabled, s')
    ensures s'.counted + s'.extra == []
  {
    hide Swept, Total, WithinLimits, AllOf;
    LeftIsWithin(files, r, cap, capEnabled, s, left, incrementals);
    CountedNone(left, r, cap, capEnabled, s');
    forall f: File ensures multiset(s'.held)[f] == multiset(s.rest)[f] {
      HeldAgain(files, r, cap, capEnabled, s, left, incrementals, s', f);
    }
    SameTotal(s'.held, s.rest);
    SweptParts(files, r, cap, capEnabled, s);
    NothingMore(files, r, cap, capEnabled, s, left, s');
  }

  lemma HeldAgain(files: seq<File>, r: Policy, cap: nat, capEnabled: bool, s: Sweep,
                  left: seq<File>, incrementals: seq<File>, s': Sweep, f: File)
    requires Swept(files, r, cap, capEnabled, s)
    requires AllOf(incrementals, Incremental) && multiset(left) == multiset(s.rest) + multiset(incrementals)
    requires Swept(left, r, cap, capEnabled, s') && s'.counted == []
    ensures multiset(s'.held)[f] == multiset(s.rest)[f]
  {
    hide Total;
    TierMembers(left, f.tier, f);
    TierMembers(s'.held, f.tier, f);
    EveryFileOnce(files, r, cap, capEnabled, s, f);
    if f.tier != Incremental {
      assert f !in incrementals;
      assert Newest(Tier(left, f.tier), Limit(r, f.tier), Tier(s'.held, f.tier), Tier(s'.counted, f.tier));
    }
  }

  lemma NothingMore(files: seq<File>, r: Policy, cap: nat, capEnabled: bool, s: Sweep, left: seq<File>, s': Sweep)
    requires Swept(files, r, cap, capEnabled, s) && Swept(left, r, cap, capEnabled, s')
    requires multiset(s'.held) == multiset(s.rest) && Total(s'.held) == Total(s.rest)
    ensures s'.extra == []
  {
    hide Total, CountPass;
    SweptParts(files, r, cap, capEnabled, s);
  }

  lemma LeftIsWithin(files: seq<File>, r: Policy, cap: nat, capEnabled: bool, s: Sweep,
                     left: seq<File>, incrementals: seq<File>)
    requires Swept(files, r, cap, capEnabled, s)
    requires AllOf(incrementals, Incremental) && multiset(left) == multiset(s.rest) + multiset(incrementals)
    ensures WithinLimits(left, r)
  {
    forall c | c != Incremental ensures |Tier(left, c)| <= Limit(r, c) {
      SweptParts(files, r, cap, capEnabled, s);
      SameTier(left, s.rest + incrementals, c);
      TierOfBoth(s.rest, incrementals, c);
      TierOfAll(incrementals, Incremental, c);
      TierSize(s.rest, s.held, c);
      assert Newest(Tier(files, c), Limit(r, c), Tier(s.held, c), Tier(s.counted, c));
    }
  }

  lemma SameTier(a: seq<File>, b: seq<File>, c: Class)
    requires multiset(a) == multiset(b)
    ensures |Tier(a, c)| == |Tier(b, c)|
  {
    TierSize(a, b, c);
    TierSize(b, a, c);
  }

  // ----- What each policy field decides

  /** How many of the files are of a tier. */
  function CountOf(files: seq<File>, c: Class): nat {
    |PlacesOf(files, c)|
  }

  function PlacesOf(files: seq<File>, c: Class): set<int> {
    set i | 0 <= i < |files| && files[i].tier == c
  }

  function Min(a: int, b: int): int {
    if a < b then a else b
  }

  function Max(a: int, b: int): int {
    if a > b then a else b
  }

  lemma {:induction false} TierIsCounted(files: seq<File>, c: Class)
    ensures |Tier(files, c)| == CountOf(files, c)
  {
    if files != [] {
      var k := |files| - 1;
      TierIsCounted(files[..k], c);
      var before := PlacesOf(files[..k], c);
      if files[k].tier == c {
        assert PlacesOf(files, c) == before + {k};
      } else {
        assert PlacesOf(files, c) == before;
      }
    }
  }

  /** Each tier keeps as many files as its own field says, or all it has; the daily tier keeps at least one. */
  lemma TierCounts(files: seq<File>, r: Policy, cap: nat, capEnabled: bool, s: Sweep)
    requires Swept(files, r, cap, capEnabled, s)
    ensures CountOf(s.held, Daily) == Min(Max(1, r.maxBackups), CountOf(files, Daily))
    ensures CountOf(s.held, Weekly) == Min(Max(0, r.keepWeekly), CountOf(files, Weekly))
    ensures CountOf(s.held, Monthly) == Min(Max(0, r.keepMonthly), CountOf(files, Monthly))
    ensures CountOf(s.held, Yearly) == Min(Max(0, r.keepYearly), CountOf(files, Yearly))
    ensures CountOf(s.held, Incremental) == 0
    ensures !capEnabled || cap == 0 ==> s.extra == []
    ensures forall c | c != Incremental :: CountOf(s.held, c) + CountOf(s.counted, c) == CountOf(files, c)
  {
    hide Capped, Tier, CountOf;
    TierIsCounted(s.held, Incremental);
    forall c | c != Incremental
      ensures CountOf(s.held, c) + CountOf(s.counted, c) == CountOf(files, c)
      ensures CountOf(s.held, c) == Min(Limit(r, c), CountOf(files, c))
    {
      CountsOfTier(files, s.held, s.counted, c, Limit(r, c));
    }
  }

  lemma CountsOfTier(files: seq<File>, held: seq<File>, counted: seq<File>, c: Class, n: nat)
    requires Newest(Tier(files, c), n, Tier(held, c), Tier(counted, c))
    ensures CountOf(held, c) + CountOf(counted, c) == CountOf(files, c) && CountOf(held, c) == Min(n, CountOf(files, c))
  {
    hide Tier, CountOf;
    TierIsCounted(files, c);
    TierIsCounted(held, c);
    TierIsCounted(counted, c);
    assert |multiset(Tier(held, c)) + multiset(Tier(counted, c))| == |multiset(Tier(files, c))|;
  }

  /** Of one tier no file is kept that is older than one given up. */
  lemma TierKeepsNewest(files: seq<File>, r: Policy, cap: nat, capEnabled: bool, s: Sweep, f: File, g: File)
    requires Swept(files, r, cap, capEnabled, s) && f in s.held && g in s.counted && f.tier == g.tier
    ensures f.date >= g.date && f.tier != Incremental
  {
    hide Capped, Tier;
    TierMembers(s.held, f.tier, f);
    TierMembers(s.counted, f.tier, g);
    assert f in multiset(Tier(s.held, f.tier)) && g in multiset(Tier(s.counted, f.tier));
    assert f in Tier(s.held, f.tier) && g in Tier(s.counted, f.tier);
  }

  /** The field that decides about a tier. */
  function FieldOf(r: Policy, c: Class): int {
    match c
    case Daily => r.maxBackups
    case Weekly => r.keepWeekly
    case Monthly => r.keepMonthly
    case Yearly => r.keepYearly
    case Incremental => 0
  }

  /** A policy that differs in other fields gives up as many files of the tier; what the two give up differs within one date only. */
  lemma OnlyItsOwnField(files: seq<File>, r: Policy, s: Sweep, r': Policy, s': Sweep, cap: nat, capEnabled: bool, c: Class)
    requires Swept(files, r, cap, capEnabled, s) && Swept(files, r', cap, capEnabled, s')
    requires c != Incremental && FieldOf(r, c) == FieldOf(r', c)
    ensures CountOf(s.counted, c) == CountOf(s'.counted, c) && CountOf(s.held, c) == CountOf(s'.held, c)
    ensures forall f, g | f in s.held && f in s'.counted && g in s'.held && g in s.counted && f.tier == g.tier == c :: f.date == g.date
  {
    hide Capped, Tier, CountOf;
    TierCounts(files, r, cap, capEnabled, s);
    TierCounts(files, r', cap, capEnabled, s');
    forall f, g | f in s.held && f in s'.counted && g in s'.held && g in s.counted && f.tier == g.tier == c ensures f.date == g.date {
      TierKeepsNewest(files, r, cap, capEnabled, s, f, g);
      TierKeepsNewest(files, r', cap, capEnabled, s', g, f);
    }
  }
}
