/**
 The rotating log file of src/logging/writer.go. The directory is a map from the names
 beside the live file to the records in them; compressing a file changes its name only.
 Every file operation succeeds. Each reading of the clock is a parameter.
 */
module LogFile {
  import opened Results
  import opened Text
  import opened Calendar
  import opened LogNames
  import opened LogRetention
  import opened Sets

  type Directory = map<string, seq<string>>

  datatype Config = Config(base: string, ext: string, maxSize: int, period: Period, keep: string, compress: bool)

  /** The clock readings of one write: the decision, the rotation's stamp, the new file, the pruning. */
  datatype Clock = Clock(check: nat, stamp: nat, open: nat, prune: nat)

  function Bytes(records: seq<string>): nat {
    if records == [] then 0 else Bytes(records[..|records| - 1]) + |records[|records| - 1]|
  }

  function Flatten(parts: seq<seq<string>>): seq<string> {
    if parts == [] then [] else Flatten(parts[..|parts| - 1]) + parts[|parts| - 1]
  }

  // ----- Choosing a name

  function NameAt(cfg: Config, stamp: nat, i: nat): string {
    RotatedName(cfg.base, cfg.ext, stamp + i * SECOND)
  }

  predicate Taken(dir: Directory, name: string) {
    name in dir || name + ".gz" in dir
  }

  /** The first second from the stamp on whose name is free in both forms. */
  predicate FirstFree(cfg: Config, dir: Directory, stamp: nat, i: nat) {
    !Taken(dir, NameAt(cfg, stamp, i)) && forall j: nat | j < i :: Taken(dir, NameAt(cfg, stamp, j))
  }

  /** No stamp the search can reach is past the year 9999. */
  predicate EnoughYears(dir: Directory, stamp: nat) {
    FourDigitYear(stamp + |dir| * SECOND)
  }

  lemma NamesDiffer(cfg: Config, stamp: nat, i: nat, j: nat)
    requires i != j && FourDigitYear(stamp + i * SECOND) && FourDigitYear(stamp + j * SECOND)
    ensures NameAt(cfg, stamp, i) != NameAt(cfg, stamp, j)
    ensures NameAt(cfg, stamp, i) + ".gz" != NameAt(cfg, stamp, j) + ".gz"
    ensures NameAt(cfg, stamp, i) != NameAt(cfg, stamp, j) + ".gz"
  {
    hide Format, Before;
    var t, u := stamp + i * SECOND, stamp + j * SECOND;
    StampsSortByTime(t, u);
    StampsSortByTime(u, t);
    SecondsApart(stamp, i);
    SecondsApart(stamp, j);
    BeforeTotal(Format(t), Format(t));
    var a, b := NameAt(cfg, stamp, i), NameAt(cfg, stamp, j);
    StampInName(cfg, t);
    StampInName(cfg, u);
    assert |a| == |b|;
    assert a == (a + ".gz")[..|a|] && b == (b + ".gz")[..|b|];
  }

  lemma StampInName(cfg: Config, t: nat)
    ensures var name := RotatedName(cfg.base, cfg.ext, t); var k := |cfg.base| + 1;
            |name| == k + STAMP_LENGTH + |cfg.ext| && name[k..k + STAMP_LENGTH] == Format(t)
  {}

  lemma SecondsApart(stamp: nat, i: nat)
    ensures (stamp + i * SECOND) / SECOND == stamp / SECOND + i
    ensures (stamp + i * SECOND) % SECOND == stamp % SECOND
  {
    var q, r := stamp / SECOND, stamp % SECOND;
    assert stamp + i * SECOND == (q + i) * SECOND + r;
    DivMod(q + i, r, SECOND);
  }

  /** Which of the two names a taken second has in the directory. */
  function Found(dir: Directory, name: string): string {
    if name in dir then name else name + ".gz"
  }

  /** Different taken seconds, each under the name it was found by. */
  ghost predicate FoundAll(cfg: Config, dir: Directory, stamp: nat, i: nat, found: set<string>) {
    (forall j: nat | j < i :: Taken(dir, NameAt(cfg, stamp, j))) &&
    found <= dir.Keys && |found| == i &&
    forall n | n in found :: exists j: nat :: j < i && n == Found(dir, NameAt(cfg, stamp, j))
  }

  method RotatedPath(cfg: Config, dir: Directory, stamp: nat) returns (path: string, i: nat)
    requires EnoughYears(dir, stamp)
    ensures path == NameAt(cfg, stamp, i) && FirstFree(cfg, dir, stamp, i) && i <= |dir|
  {
    i := 0;
    path := NameAt(cfg, stamp, 0);
    ghost var found: set<string> := {};
    assert FoundAll(cfg, dir, stamp, 0, found);
    hide NameAt, FoundAll, EnoughYears;
    while path in dir || path + ".gz" in dir
      invariant i <= |dir| && path == NameAt(cfg, stamp, i) && FoundAll(cfg, dir, stamp, i, found)
      decreases |dir| - i
    {
      found := FindsOneMore(cfg, dir, stamp, i, found);
      i := i + 1;
      path := NameAt(cfg, stamp, i);
    }
    FoundAllTaken(cfg, dir, stamp, i, found);
  }

  lemma FoundAllTaken(cfg: Config, dir: Directory, stamp: nat, i: nat, found: set<string>)
    requires FoundAll(cfg, dir, stamp, i, found)
    ensures forall j: nat | j < i :: Taken(dir, NameAt(cfg, stamp, j))
  {
    hide NameAt, Taken;
  }

  lemma FindsOneMore(cfg: Config, dir: Directory, stamp: nat, i: nat, found: set<string>) returns (more: set<string>)
    requires EnoughYears(dir, stamp) && i <= |dir| && FoundAll(cfg, dir, stamp, i, found)
    requires Taken(dir, NameAt(cfg, stamp, i))
    ensures i < |dir| && FoundAll(cfg, dir, stamp, i + 1, more)
  {
    hide NameAt, EnoughYears;
    NotFoundBefore(cfg, dir, stamp, i, found);
    more := found + {Found(dir, NameAt(cfg, stamp, i))};
    SubsetSize(more, dir.Keys);
    forall n | n in more ensures exists j: nat :: j < i + 1 && n == Found(dir, NameAt(cfg, stamp, j)) {
      if n in found {
        var j: nat :| j < i && n == Found(dir, NameAt(cfg, stamp, j));
      }
    }
  }

  lemma NotFoundBefore(cfg: Config, dir: Directory, stamp: nat, i: nat, found: set<string>)
    requires EnoughYears(dir, stamp) && i <= |dir|
    requires forall n | n in found :: exists j: nat :: j < i && n == Found(dir, NameAt(cfg, stamp, j))
    ensures Found(dir, NameAt(cfg, stamp, i)) !in found
  {
    hide NameAt;
    var n := Found(dir, NameAt(cfg, stamp, i));
    if n in found {
      var j: nat :| j < i && n == Found(dir, NameAt(cfg, stamp, j));
      NamesDiffer(cfg, stamp, i, j);
      NamesDiffer(cfg, stamp, j, i);
    }
  }

  // ----- Listing and pruning

  /** The stamp of a rotated sibling of the live file; other files have none. */
  function StampOf(cfg: Config, name: string): Option<int> {
    if name == cfg.base + cfg.ext || !HasPrefix(name, cfg.base + ".") then None
    else ParseStamp(name, cfg.base + ".", cfg.ext)
  }

  /** The live file itself is not one of them, whatever its extension. */
  lemma LiveIsNotListed(cfg: Config, dir: Directory, files: seq<Rotated>)
    requires Lists(files, cfg, dir)
    ensures forall f | f in files :: f.name != cfg.base + cfg.ext
  {}

  ghost predicate Lists(files: seq<Rotated>, cfg: Config, dir: Directory) {
    UniqueNames(files) && forall f :: f in files <==> f.name in dir && StampOf(cfg, f.name) == Some(f.stamp)
  }

  method RotatedFiles(cfg: Config, dir: Directory) returns (files: seq<Rotated>)
    ensures Lists(files, cfg, dir)
  {
    hide StampOf;
    files := [];
    var rest := dir.Keys;
    while rest != {}
      invariant rest <= dir.Keys && UniqueNames(files)
      invariant forall f :: f in files <==> f.name in dir && f.name !in rest && StampOf(cfg, f.name) == Some(f.stamp)
      decreases |rest|
    {
      var name :| name in rest;
      ListsOneMore(files, cfg, dir, rest, name);
      rest := rest - {name};
      var stamp := StampOf(cfg, name);
      if stamp.Some? {
        files := files + [Rotated(name, stamp.value)];
      }
    }
  }

  lemma ListsOneMore(files: seq<Rotated>, cfg: Config, dir: Directory, rest: set<string>, name: string)
    requires name in rest && rest <= dir.Keys && UniqueNames(files)
    requires forall f :: f in files <==> f.name in dir && f.name !in rest && StampOf(cfg, f.name) == Some(f.stamp)
    ensures var stamp := StampOf(cfg, name);
            var more := if stamp.Some? then files + [Rotated(name, stamp.value)] else files;
            UniqueNames(more) && forall f :: f in more <==> f.name in dir && f.name !in rest - {name} && StampOf(cfg, f.name) == Some(f.stamp)
  {
    hide StampOf;
    forall f | f in files ensures f.name != name {}
  }

  function Names(files: seq<Rotated>): set<string> {
    set f | f in files :: f.name
  }

  function FinalName(cfg: Config, path: string): string {
    if cfg.compress then path + ".gz" else path
  }

  /** What one rotation did: how far past the stamp its name is, and what the pruning saw. */
  datatype Rotation = Rotation(i: nat, name: string, files: seq<Rotated>, victims: seq<Rotated>, kept: seq<Rotated>)

  ghost predicate Rotates(cfg: Config, dir: Directory, live: seq<string>, stamp: nat, now: nat, dir': Directory, r: Rotation) {
    FirstFree(cfg, dir, stamp, r.i) && r.i <= |dir| &&
    r.name == FinalName(cfg, NameAt(cfg, stamp, r.i)) &&
    Lists(r.files, cfg, dir[r.name := live]) &&
    Divided(r.files, ParseKeep(cfg.keep), now, r.victims, r.kept) &&
    dir' == dir[r.name := live] - Names(r.victims)
  }

  /** Of the rotations under one name, the directory holds the newest, or none of them. */
  ghost predicate Holds(dir: Directory, names: seq<string>, archive: seq<seq<string>>) {
    |names| == |archive| &&
    forall k | 0 <= k < |names| && names[k] in dir && (forall m | k < m < |names| :: names[m] != names[k]) ::
      dir[names[k]] == archive[k]
  }

  lemma HoldsOneMore(dir: Directory, names: seq<string>, archive: seq<seq<string>>, name: string, records: seq<string>)
    requires Holds(dir, names, archive)
    ensures Holds(dir[name := records], names + [name], archive + [records])
  {
    var names', archive' := names + [name], archive + [records];
    forall k | 0 <= k < |names'| && names'[k] in dir[name := records] && (forall m | k < m < |names'| :: names'[m] != names'[k])
      ensures dir[name := records][names'[k]] == archive'[k]
    {
      if k < |names| {
        assert names'[|names|] == name;
        forall m | k < m < |names| ensures names[m] != names[k] {
          assert names'[m] != names'[k];
        }
      }
    }
  }

  lemma HoldsFewer(dir: Directory, names: seq<string>, archive: seq<seq<string>>, gone: set<string>)
    requires Holds(dir, names, archive)
    ensures Holds(dir - gone, names, archive)
  {}

  // ----- The order of the files is the order of the records

  /** The start of the second of an instant. */
  function Whole(t: nat): int {
    t - t % SECOND
  }

  function StampAt(cfg: Config, name: string): int
    requires StampOf(cfg, name).Some?
  {
    StampOf(cfg, name).value
  }

  /** Every second from the clock to any present stamp is taken. */
  ghost predicate Packed(cfg: Config, dir: Directory, clock: nat) {
    forall n, k: nat | n in dir && StampOf(cfg, n).Some? && Whole(clock) + k * SECOND <= StampAt(cfg, n) ::
      Taken(dir, NameAt(cfg, clock, k))
  }

  /** The rotations so far are all there, later ones have later stamps, and all other siblings earlier ones. */
  ghost predicate InSequence(cfg: Config, dir: Directory, names: seq<string>, archive: seq<seq<string>>) {
    |names| == |archive| &&
    (forall k | 0 <= k < |names| :: names[k] in dir && dir[names[k]] == archive[k] && StampOf(cfg, names[k]).Some?) &&
    (forall j, k | 0 <= j < k < |names| :: StampAt(cfg, names[j]) < StampAt(cfg, names[k])) &&
    forall n, k | n in dir && n !in names && StampOf(cfg, n).Some? && 0 <= k < |names| :: StampAt(cfg, n) < StampAt(cfg, names[k])
  }

  ghost predicate Ordered(cfg: Config, dir: Directory, names: seq<string>, archive: seq<seq<string>>, clock: nat) {
    InSequence(cfg, dir, names, archive) && Packed(cfg, dir, clock)
  }

  /** No sibling is there yet with a stamp of this second or later. */
  ghost predicate NoLaterSibling(cfg: Config, dir: Directory, now: nat) {
    forall n | n in dir && StampOf(cfg, n).Some? :: StampAt(cfg, n) < Whole(now)
  }

  lemma NothingRotatedYet(cfg: Config, dir: Directory, now: nat)
    requires NoLaterSibling(cfg, dir, now)
    ensures Ordered(cfg, dir, [], [], now)
  {
    hide StampOf, Taken, NameAt;
  }

  /** The policies under which pruning deletes nothing. */
  predicate KeepsAll(cfg: Config) {
    ParseKeep(cfg.keep) == Forever || ParseKeep(cfg.keep) == Unknown
  }

  /** The names from a later clock on are the later ones from an earlier clock on. */
  lemma NamesFromLater(cfg: Config, clock: nat, now: nat, k: nat)
    requires clock <= now
    ensures var d := now / SECOND - clock / SECOND;
            d >= 0 && NameAt(cfg, now, k) == NameAt(cfg, clock, k + d) && Whole(clock) + (k + d) * SECOND == Whole(now) + k * SECOND
  {
    hide Format;
    var d := now / SECOND - clock / SECOND;
    assert now == now / SECOND * SECOND + now % SECOND && clock == clock / SECOND * SECOND + clock % SECOND;
    SecondsApart(now, k);
    SecondsApart(clock, k + d);
    SameSecond(now + k * SECOND, clock + (k + d) * SECOND);
  }

  lemma PackedLater(cfg: Config, dir: Directory, clock: nat, now: nat)
    requires clock <= now && Packed(cfg, dir, clock)
    ensures Packed(cfg, dir, now)
  {
    hide StampOf, Taken, NameAt, Whole;
    forall n, k: nat | n in dir && StampOf(cfg, n).Some? && Whole(now) + k * SECOND <= StampAt(cfg, n)
      ensures Taken(dir, NameAt(cfg, now, k))
    {
      NamesFromLater(cfg, clock, now, k);
      var d := now / SECOND - clock / SECOND;
      assert Whole(clock) + (k + d) * SECOND <= StampAt(cfg, n);
    }
  }

  /** The free second found is later than every stamp in a packed directory. */
  lemma FreeIsLatest(cfg: Config, dir: Directory, now: nat, i: nat)
    requires Packed(cfg, dir, now) && FirstFree(cfg, dir, now, i)
    ensures forall n | n in dir && StampOf(cfg, n).Some? :: StampAt(cfg, n) < Whole(now) + i * SECOND
  {
    hide StampOf, Taken, NameAt;
  }

  lemma PackedWith(cfg: Config, dir: Directory, now: nat, i: nat, name: string, live: seq<string>)
    requires Packed(cfg, dir, now) && FirstFree(cfg, dir, now, i) && name == FinalName(cfg, NameAt(cfg, now, i))
    requires StampOf(cfg, name) == Some(Whole(now) + i * SECOND)
    ensures Packed(cfg, dir[name := live], now)
  {
    hide StampOf, NameAt, Whole;
    var dir' := dir[name := live];
    forall n, k: nat | n in dir' && StampOf(cfg, n).Some? && Whole(now) + k * SECOND <= StampAt(cfg, n)
      ensures Taken(dir', NameAt(cfg, now, k))
    {
      if n != name {
        assert Taken(dir, NameAt(cfg, now, k));
      } else if k < i {
        assert Taken(dir, NameAt(cfg, now, k));
      } else {
        assert k == i;
      }
    }
  }

  lemma OneMoreInSequence(cfg: Config, dir: Directory, names: seq<string>, archive: seq<seq<string>>, name: string, live: seq<string>)
    requires InSequence(cfg, dir, names, archive) && name !in dir && StampOf(cfg, name).Some?
    requires forall n | n in dir && StampOf(cfg, n).Some? :: StampAt(cfg, n) < StampAt(cfg, name)
    ensures InSequence(cfg, dir[name := live], names + [name], archive + [live])
  {
    hide StampOf;
    var dir', names', archive' := dir[name := live], names + [name], archive + [live];
    forall n, k | n in dir' && n !in names' && StampOf(cfg, n).Some? && 0 <= k < |names'| ensures StampAt(cfg, n) < StampAt(cfg, names'[k]) {
      assert names'[|names|] == name;
      assert n in dir && n !in names;
    }
  }

  /** A rotation at a clock that did not go back keeps the order, as long as pruning deletes nothing. */
  lemma OrderedStep(cfg: Config, dir: Directory, names: seq<string>, archive: seq<seq<string>>, clock: nat,
                    live: seq<string>, stamp: nat, now: nat, dir': Directory, r: Rotation)
    requires Ordered(cfg, dir, names, archive, clock) && clock <= stamp && Rotates(cfg, dir, live, stamp, now, dir', r)
    requires KeepsAll(cfg) && IsExtension(cfg.ext) && EnoughYears(dir, stamp)
    ensures Ordered(cfg, dir', names + [r.name], archive + [live], stamp)
  {
    hide StampOf, ParseKeep, FirstFree, Packed, InSequence, Taken, NameAt;
    NameIsFreshAndListed(cfg, dir, live, stamp, now, dir', r);
    assert StampOf(cfg, r.name) == Some(Whole(stamp) + r.i * SECOND);
    PackedLater(cfg, dir, clock, stamp);
    FreeIsLatest(cfg, dir, stamp, r.i);
    PackedWith(cfg, dir, stamp, r.i, r.name, live);
    OneMoreInSequence(cfg, dir, names, archive, r.name, live);
    assert r.victims == [];
    assert dir' == dir[r.name := live];
  }

  /** The contents of listed files, one after the other. */
  function Contents(files: seq<Rotated>, dir: Directory): seq<seq<string>>
    requires forall i | 0 <= i < |files| :: files[i].name in dir
  {
    seq(|files|, i requires 0 <= i < |files| => dir[files[i].name])
  }

  ghost predicate Ascending(files: seq<Rotated>) {
    forall i, j | 0 <= i < j < |files| :: files[i].stamp <= files[j].stamp
  }

  /** Of a listing in the order of the stamps, the last is the last rotation. */
  lemma LastIsLast(cfg: Config, dir: Directory, names: seq<string>, archive: seq<seq<string>>, files: seq<Rotated>)
    requires InSequence(cfg, dir, names, archive) && Lists(files, cfg, dir) && Ascending(files) && names != []
    ensures files != [] && files[|files| - 1].name == names[|names| - 1]
  {
    hide StampOf;
    var last := names[|names| - 1];
    var f := Rotated(last, StampAt(cfg, last));
    assert f in files;
    var p :| 0 <= p < |files| && files[p] == f;
    var g := files[|files| - 1];
    assert g in files && f.stamp <= g.stamp;
    forall n | n in dir && StampOf(cfg, n).Some? && n != last ensures StampAt(cfg, n) < f.stamp {
      if n in names {
        var k :| 0 <= k < |names| && names[k] == n;
      }
    }
  }

  lemma SequenceWithoutLast(cfg: Config, dir: Directory, names: seq<string>, archive: seq<seq<string>>)
    requires InSequence(cfg, dir, names, archive) && names != []
    ensures var n := |names| - 1; InSequence(cfg, dir - {names[n]}, names[..n], archive[..n])
  {
    hide StampOf;
    var n := |names| - 1;
    assert names == names[..n] + [names[n]];
    forall k | 0 <= k < n ensures names[k] != names[n] {
      assert StampAt(cfg, names[k]) < StampAt(cfg, names[n]);
    }
  }

  lemma ListsWithoutLast(cfg: Config, dir: Directory, front: seq<Rotated>, last: Rotated)
    requires Lists(front + [last], cfg, dir)
    ensures Lists(front, cfg, dir - {last.name})
  {
    hide StampOf;
    var files := front + [last];
    forall i, j | 0 <= i < j < |front| ensures front[i].name != front[j].name {
      assert files[i].name != files[j].name;
    }
    forall f | f in front ensures f in files && f.name != last.name {
      var i :| 0 <= i < |front| && front[i] == f;
      assert files[i].name != files[|front|].name;
    }
  }

  /**
   Whoever reads the rotated files in the order of their stamps reads first what was there
   before, and then the rotations in the order in which they were written.
   */
  lemma {:induction false} SortedIsArchive(cfg: Config, dir: Directory, names: seq<string>, archive: seq<seq<string>>, files: seq<Rotated>)
    requires InSequence(cfg, dir, names, archive) && Lists(files, cfg, dir) && Ascending(files)
    ensures |names| == |archive| <= |files|
    ensures forall i | 0 <= i < |files| :: files[i].name in dir
    ensures forall i | 0 <= i < |files| - |names| :: files[i].name !in names
    ensures Contents(files, dir)[|files| - |names|..] == archive
    decreases |names|
  {
    hide StampOf, InSequence, Lists, Ascending;
    AllPresent(cfg, dir, names, archive, files);
    if names != [] {
      LastIsLast(cfg, dir, names, archive, files);
      var n, m := |names| - 1, |files| - 1;
      assert files == files[..m] + [files[m]];
      SequenceWithoutLast(cfg, dir, names, archive);
      ListsWithoutLast(cfg, dir, files[..m], files[m]);
      assert Ascending(files[..m]) by {
        AscendingPrefix(files, m);
      }
      SortedIsArchive(cfg, dir - {names[n]}, names[..n], archive[..n], files[..m]);
      SortedStep(dir, names, archive, files[..m], files[m]);
    }
  }

  lemma AscendingPrefix(files: seq<Rotated>, m: nat)
    requires Ascending(files) && m <= |files|
    ensures Ascending(files[..m])
  {}

  lemma AllPresent(cfg: Config, dir: Directory, names: seq<string>, archive: seq<seq<string>>, files: seq<Rotated>)
    requires InSequence(cfg, dir, names, archive) && Lists(files, cfg, dir)
    ensures |names| == |archive| && forall i | 0 <= i < |files| :: files[i].name in dir
    ensures names != [] ==> names[|names| - 1] in dir && dir[names[|names| - 1]] == archive[|names| - 1]
  {
    hide StampOf;
    forall i | 0 <= i < |files| ensures files[i].name in dir {
      assert files[i] in files;
    }
  }

  lemma SortedStep(dir: Directory, names: seq<string>, archive: seq<seq<string>>, front: seq<Rotated>, last: Rotated)
    requires names != [] && |names| == |archive| <= |front| + 1
    requires last.name == names[|names| - 1] && last.name in dir && dir[last.name] == archive[|names| - 1]
    requires forall i | 0 <= i < |front| :: front[i].name in dir - {last.name}
    requires forall i | 0 <= i <= |front| - |names| :: front[i].name !in names[..|names| - 1]
    requires Contents(front, dir - {last.name})[|front| + 1 - |names|..] == archive[..|names| - 1]
    ensures forall i | 0 <= i <= |front| :: (front + [last])[i].name in dir
    ensures forall i | 0 <= i <= |front| - |names| :: (front + [last])[i].name !in names
    ensures Contents(front + [last], dir)[|front| + 1 - |names|..] == archive
  {
    var n := |names| - 1;
    assert names == names[..n] + [names[n]] && archive == archive[..n] + [archive[n]];
    assert Contents(front + [last], dir) == Contents(front, dir - {last.name}) + [dir[last.name]];
  }

  /** Without other siblings the listing is just the rotations. */
  lemma OnlyRotations(cfg: Config, dir: Directory, names: seq<string>, archive: seq<seq<string>>, files: seq<Rotated>)
    requires InSequence(cfg, dir, names, archive) && Lists(files, cfg, dir) && Ascending(files)
    requires forall n | n in dir && StampOf(cfg, n).Some? :: n in names
    ensures forall i | 0 <= i < |files| :: files[i].name in dir
    ensures Contents(files, dir) == archive
  {
    hide StampOf, InSequence, Ascending;
    SortedIsArchive(cfg, dir, names, archive, files);
    NoneBefore(cfg, dir, names, files);
    hide Lists;
    assert Contents(files, dir)[0..] == Contents(files, dir);
  }

  lemma NoneBefore(cfg: Config, dir: Directory, names: seq<string>, files: seq<Rotated>)
    requires Lists(files, cfg, dir) && forall n | n in dir && StampOf(cfg, n).Some? :: n in names
    requires forall i | 0 <= i < |files| - |names| :: files[i].name !in names
    ensures |files| <= |names|
  {
    hide StampOf;
    assert files != [] ==> files[0] in files && files[0].name in names;
  }

  // ----- The file

  datatype LogError = Closed

  class Log {
    const cfg: Config
    var live: seq<string>
    var size: nat
    var openedAt: nat
    var closed: bool
    var dir: Directory
    /** The contents of every rotation so far, in order, and their names. */
    ghost var archive: seq<seq<string>>
    ghost var names: seq<string>
    /** The clock at the last rotation, or when the file was opened. */
    ghost var clock: nat

    ghost predicate Valid()
      reads this
    {
      size == Bytes(live) && Holds(dir, names, archive)
    }

    /** Everything written, in order. */
    ghost function Written(): seq<string>
      reads this
    {
      Flatten(archive) + live
    }

    constructor (cfg: Config, dir: Directory, now: nat)
      ensures Valid() && !closed && live == [] && this.dir == dir && this.cfg == cfg && Written() == [] && clock == now
      ensures NoLaterSibling(cfg, dir, now) ==> IsOrdered()
      ensures (forall n | n in dir :: StampOf(cfg, n).None?) ==> NoStrangers()
    {
      hide StampOf;
      this.cfg, this.dir := cfg, dir;
      live, size, openedAt, closed := [], 0, now, false;
      archive, names, clock := [], [], now;
      new;
      if NoLaterSibling(cfg, dir, now) {
        NothingRotatedYet(cfg, dir, now);
      }
    }

    ghost predicate IsOrdered()
      reads this
    {
      Ordered(cfg, dir, names, archive, clock)
    }

    /** Every rotated file beside the live one is of this log. */
    ghost predicate NoStrangers()
      reads this
    {
      forall n | n in dir && StampOf(cfg, n).Some? :: n in names
    }

    /**
     Sorted by their stamps, the rotated files end with everything this log has rotated out,
     in order; without strangers, they and the live file are everything written.
     */
    lemma ReadsAsWritten(files: seq<Rotated>)
      requires Valid() && IsOrdered() && Lists(files, cfg, dir) && Ascending(files)
      ensures |names| <= |files| && forall i | 0 <= i < |files| :: files[i].name in dir
      ensures forall i | 0 <= i < |files| - |names| :: files[i].name !in names
      ensures Flatten(Contents(files, dir)[|files| - |names|..]) + live == Written()
      ensures NoStrangers() ==> Flatten(Contents(files, dir)) + live == Written()
    {
      hide Flatten, InSequence, Packed, Ascending, Lists, StampOf, Holds, Contents;
      SortedIsArchive(cfg, dir, names, archive, files);
      if NoStrangers() {
        OnlyRotations(cfg, dir, names, archive, files);
      }
    }

    predicate NeedsRotate(n: nat, now: nat)
      reads this
    {
      ShouldRotateTime(openedAt, now, cfg.period) || (cfg.maxSize > 0 && size > 0 && size + n > cfg.maxSize)
    }

    /** Appends a record, to a fresh file when the policy calls for one; never part of a record. */
    method Write(p: string, c: Clock) returns (r: Result<nat, LogError>, ghost done: Option<Rotation>)
      requires Valid() && EnoughYears(dir, c.stamp)
      modifies this
      ensures Valid() && closed == old(closed)
      ensures r == if closed then Err(Closed) else Ok(|p|)
      ensures closed ==> live == old(live) && dir == old(dir) && archive == old(archive) && done == None
      ensures !closed ==> Written() == old(Written()) + [p] && (done.Some? <==> old(NeedsRotate(|p|, c.check)))
      ensures !closed && done.None? ==> live == old(live) + [p] && dir == old(dir) && archive == old(archive)
      ensures done.Some? ==> live == [p] && openedAt == c.open && archive == old(archive) + [old(live)]
      ensures done.Some? ==> Rotates(cfg, old(dir), old(live), c.stamp, c.prune, dir, done.value)
      ensures !closed && cfg.maxSize > 0 ==> size <= cfg.maxSize || size == |p|
      ensures !closed ==> (done.Some? <==>
                (cfg.maxSize > 0 && old(size) > 0 && old(size) + |p| > cfg.maxSize) ||
                (c.check >= old(openedAt) && Crossed(cfg.period, DayOf(old(openedAt)), DayOf(c.check))))
      ensures clock == if done.Some? then c.stamp else old(clock)
      ensures KeepsAll(cfg) && IsExtension(cfg.ext) && old(clock) <= c.stamp && old(IsOrdered()) ==> IsOrdered()
      ensures old(NoStrangers()) ==> NoStrangers()
    {
      hide Bytes, Flatten, Rotates, Holds, ShouldRotateTime, Crossed, Ordered, KeepsAll, StampOf;
      done := None;
      RotatesAtBoundaries(openedAt, c.check, cfg.period);
      if closed {
        return Err(Closed), None;
      }
      if NeedsRotate(|p|, c.check) {
        ghost var rotation := RotateLocked(c);
        done := Some(rotation);
        NothingWritten();
        if KeepsAll(cfg) && IsExtension(cfg.ext) && old(clock) <= c.stamp && old(IsOrdered()) {
          OrderedStep(cfg, old(dir), old(names), old(archive), old(clock), old(live), c.stamp, c.prune, dir, rotation);
        }
      }
      AppendRecord(live, p, Flatten(archive));
      live, size := live + [p], size + |p|;
      return Ok(|p|), done;
    }

    method RotateLocked(c: Clock) returns (ghost r: Rotation)
      requires Valid() && EnoughYears(dir, c.stamp)
      modifies this
      ensures Valid() && closed == old(closed) && live == [] && size == 0 && openedAt == c.open
      ensures archive == old(archive) + [old(live)] && Written() == old(Written())
      ensures Rotates(cfg, old(dir), old(live), c.stamp, c.prune, dir, r)
      ensures names == old(names) + [r.name] && clock == c.stamp
      ensures old(NoStrangers()) ==> NoStrangers()
    {
      hide NameAt, Bytes, Flatten, Holds, Lists, FirstFree, Divided, EnoughYears, Names, StampOf;
      ghost var name, i := MoveAside(c.stamp, c.open);
      label Moved:
      ghost var files, victims, kept := Prune(c.prune);
      HoldsFewer(old@Moved(dir), names, archive, Names(victims));
      r := Rotation(i, name, files, victims, kept);
      clock := c.stamp;
    }

    /** Renames the live file to a free stamped name, compresses it if configured, and opens a new one. */
    method MoveAside(stamp: nat, open: nat) returns (ghost name: string, ghost k: nat)
      requires Valid() && EnoughYears(dir, stamp)
      modifies this
      ensures Valid() && closed == old(closed) && live == [] && size == 0 && openedAt == open
      ensures archive == old(archive) + [old(live)] && Written() == old(Written())
      ensures FirstFree(cfg, old(dir), stamp, k) && k <= |old(dir)| && name == FinalName(cfg, NameAt(cfg, stamp, k))
      ensures names == old(names) + [name]
      ensures dir == old(dir)[name := old(live)]
    {
      hide NameAt, Bytes, Flatten, Holds, FirstFree, EnoughYears;
      var path, i := RotatedPath(cfg, dir, stamp);
      name, k := FinalName(cfg, path), i;
      FreeName(cfg, dir, stamp, i);
      HoldsOneMore(dir, names, archive, name, live);
      OneMorePart(archive, live);
      NothingWritten();
      archive, names := archive + [live], names + [name];
      dir := dir[path := live];
      live, size, openedAt := [], 0, open;
      if cfg.compress {
        CompressFile(path);
      }
      assert dir == old(dir)[name := old(live)];
    }

    method CompressFile(path: string)
      requires path in dir
      modifies this`dir
      ensures dir == (old(dir) - {path})[path + ".gz" := old(dir)[path]]
    {
      var content := dir[path];
      dir := dir[path + ".gz" := content];
      dir := dir - {path};
    }

    /** Deletes the rotated files the retention policy no longer keeps. */
    method Prune(now: nat) returns (ghost files: seq<Rotated>, ghost victims: seq<Rotated>, ghost kept: seq<Rotated>)
      modifies this`dir
      ensures Lists(files, cfg, old(dir)) && Divided(files, ParseKeep(cfg.keep), now, victims, kept)
      ensures dir == old(dir) - Names(victims)
    {
      hide Lists, Divided, ParseKeep;
      var found := RotatedFiles(cfg, dir);
      var gone := PruneList(found, cfg.keep, now);
      kept :| Divided(found, ParseKeep(cfg.keep), now, gone, kept);
      Remove(gone);
      files, victims := found, gone;
    }

    method Remove(victims: seq<Rotated>)
      modifies this`dir
      ensures dir == old(dir) - Names(victims)
    {
      for k := 0 to |victims|
        invariant dir == old(dir) - Names(victims[..k])
      {
        assert Names(victims[..k + 1]) == Names(victims[..k]) + {victims[k].name};
        dir := dir - {victims[k].name};
      }
      assert victims[..|victims|] == victims;
    }

    method Close()
      modifies this
      ensures closed && live == old(live) && dir == old(dir) && size == old(size) && openedAt == old(openedAt)
      ensures archive == old(archive) && names == old(names) && clock == old(clock)
    {
      closed := true;
    }
  }

  lemma NothingWritten()
    ensures Bytes([]) == 0
  {}

  lemma FreeName(cfg: Config, dir: Directory, stamp: nat, i: nat)
    requires FirstFree(cfg, dir, stamp, i)
    ensures NameAt(cfg, stamp, i) !in dir && NameAt(cfg, stamp, i) + ".gz" !in dir
  {
    hide NameAt;
  }

  lemma AppendRecord(live: seq<string>, p: string, before: seq<string>)
    ensures Bytes(live + [p]) == Bytes(live) + |p|
    ensures before + (live + [p]) == before + live + [p]
  {
    assert (live + [p])[..|live|] == live;
  }

  lemma OneMorePart(parts: seq<seq<string>>, last: seq<string>)
    ensures Flatten(parts + [last]) + [] == Flatten(parts) + last
  {
    assert (parts + [last])[..|parts|] == parts;
  }

  // ----- What a rotation guarantees

  /** A rotated name is fresh, and its stamp can be read back from it. */
  lemma NameIsFreshAndListed(cfg: Config, dir: Directory, live: seq<string>, stamp: nat, now: nat, dir': Directory, r: Rotation)
    requires Rotates(cfg, dir, live, stamp, now, dir', r) && IsExtension(cfg.ext) && EnoughYears(dir, stamp)
    ensures r.name !in dir
    ensures Rotated(r.name, stamp - stamp % SECOND + r.i * SECOND) in r.files
  {
    hide Rotates, StampOf, NameAt, FourDigitYear, IsExtension, Lists, FirstFree;
    NewFile(cfg, dir, live, stamp, now, dir', r);
    FreeName(cfg, dir, stamp, r.i);
    EarlierYear(stamp + r.i * SECOND, stamp + |dir| * SECOND);
    NameAtHasStamp(cfg, stamp, r.i);
    IsListed(r.files, cfg, dir, r.name, live, stamp - stamp % SECOND + r.i * SECOND);
  }

  lemma NewFile(cfg: Config, dir: Directory, live: seq<string>, stamp: nat, now: nat, dir': Directory, r: Rotation)
    requires Rotates(cfg, dir, live, stamp, now, dir', r)
    ensures FirstFree(cfg, dir, stamp, r.i) && r.i <= |dir| && r.name == FinalName(cfg, NameAt(cfg, stamp, r.i))
    ensures Lists(r.files, cfg, dir[r.name := live])
  {
    hide NameAt, Lists, FirstFree, Divided, ParseKeep;
  }

  lemma IsListed(files: seq<Rotated>, cfg: Config, dir: Directory, name: string, live: seq<string>, stamp: int)
    requires Lists(files, cfg, dir[name := live]) && StampOf(cfg, name) == Some(stamp)
    ensures Rotated(name, stamp) in files
  {
    hide StampOf;
    var f := Rotated(name, stamp);
    assert f.name in dir[name := live];
  }

  lemma NameAtHasStamp(cfg: Config, stamp: nat, i: nat)
    requires FourDigitYear(stamp + i * SECOND) && IsExtension(cfg.ext)
    ensures StampOf(cfg, FinalName(cfg, NameAt(cfg, stamp, i))) == Some(stamp - stamp % SECOND + i * SECOND)
  {
    hide FourDigitYear, IsExtension, StampOf, RotatedName;
    NameHasStamp(cfg, stamp + i * SECOND);
    SecondsApart(stamp, i);
  }

  lemma EarlierYear(t: nat, u: nat)
    requires t <= u && FourDigitYear(u)
    ensures FourDigitYear(t)
  {}

  lemma NameHasStamp(cfg: Config, t: nat)
    requires FourDigitYear(t) && IsExtension(cfg.ext)
    ensures var name := RotatedName(cfg.base, cfg.ext, t);
            StampOf(cfg, name) == Some(t - t % SECOND) && StampOf(cfg, name + ".gz") == Some(t - t % SECOND)
  {
    hide ParseStamp, IsExtension, RotatedName, Format;
    NameReadsBack(cfg.base, cfg.ext, t, false);
    NameReadsBack(cfg.base, cfg.ext, t, true);
    var name := RotatedName(cfg.base, cfg.ext, t);
    assert name + "" == name;
    NameStarts(cfg, t);
  }

  lemma NameStarts(cfg: Config, t: nat)
    ensures var name := RotatedName(cfg.base, cfg.ext, t);
            HasPrefix(name, cfg.base + ".") && HasPrefix(name + ".gz", cfg.base + ".") && |name| > |cfg.base + cfg.ext|
  {
    hide Format;
    var name := RotatedName(cfg.base, cfg.ext, t);
    assert name == (cfg.base + ".") + (Format(t) + cfg.ext);
    assert name + ".gz" == (cfg.base + ".") + (Format(t) + cfg.ext + ".gz");
  }

  /** Under a count policy a rotation keeps its own file exactly when fewer files than the count come before it. */
  lemma RotationSurvivesIff(cfg: Config, dir: Directory, live: seq<string>, stamp: nat, now: nat, dir': Directory, r: Rotation)
    requires Rotates(cfg, dir, live, stamp, now, dir', r) && IsExtension(cfg.ext) && EnoughYears(dir, stamp)
    requires ParseKeep(cfg.keep).Newest?
    ensures r.name in dir' <==>
            |Ahead(r.files, Rotated(r.name, stamp - stamp % SECOND + r.i * SECOND))| < ParseKeep(cfg.keep).count
  {
    hide ParseKeep;
    NameIsFreshAndListed(cfg, dir, live, stamp, now, dir', r);
    var f := Rotated(r.name, stamp - stamp % SECOND + r.i * SECOND);
    CountKeepsTheNewest(r.files, ParseKeep(cfg.keep).count, now, r.victims, r.kept, f);
    DividedApart(r.files, r.victims, r.kept, f);
  }

  /** A file is a victim exactly when it is not kept, and no other victim has its name. */
  lemma DividedApart(files: seq<Rotated>, victims: seq<Rotated>, kept: seq<Rotated>, f: Rotated)
    requires UniqueNames(files) && f in files && multiset(victims) + multiset(kept) == multiset(files)
    ensures f in kept <==> f.name !in Names(victims)
  {
    NamesOccurOnce(files);
    DividedDistinct(files, victims, kept);
    assert (multiset(victims) + multiset(kept))[f] == multiset(files)[f];
  }

  /**
   The chosen stamp is later than all present ones exactly when every second from the clock
   to the latest present stamp is taken. A second freed by pruning breaks this.
   */
  lemma LatestIff(cfg: Config, dir: Directory, stamp: nat, i: nat, files: seq<Rotated>)
    requires FirstFree(cfg, dir, stamp, i) && Lists(files, cfg, dir)
    ensures (forall f | f in files :: f.stamp < stamp - stamp % SECOND + i * SECOND) <==>
            forall f, k: nat | f in files && stamp - stamp % SECOND + k * SECOND <= f.stamp :: Taken(dir, NameAt(cfg, stamp, k))
  {
    hide NameAt, Taken;
    var start := stamp - stamp % SECOND;
    if forall f | f in files :: f.stamp < start + i * SECOND {
      forall f, k: nat | f in files && start + k * SECOND <= f.stamp ensures Taken(dir, NameAt(cfg, stamp, k)) {
        assert k < i;
      }
    }
  }

  // ----- A rotation that loses its own file

  /** Of two rotated files a count of one leaves the later. */
  lemma LaterOfTwo(cfg: Config, dir: Directory, files: seq<Rotated>, now: int, victims: seq<Rotated>, kept: seq<Rotated>,
                   f: Rotated, g: Rotated)
    requires Lists(files, cfg, dir) && Divided(files, Newest(1), now, victims, kept)
    requires dir.Keys == {f.name, g.name} && f.stamp < g.stamp
    requires StampOf(cfg, f.name) == Some(f.stamp) && StampOf(cfg, g.name) == Some(g.stamp)
    ensures dir - Names(victims) == map[g.name := dir[g.name]]
  {
    hide StampOf, Divided;
    assert f in files && g in files;
    assert Ahead(files, f) == {g} && Ahead(files, g) == {} by {
      forall h | h in files ensures h == f || h == g {
        assert h.name == f.name || h.name == g.name;
      }
    }
    Survives(files, 1, now, victims, kept, f);
    Survives(files, 1, now, victims, kept, g);
  }

  lemma Survives(files: seq<Rotated>, n: nat, now: int, victims: seq<Rotated>, kept: seq<Rotated>, f: Rotated)
    requires Divided(files, Newest(n), now, victims, kept) && UniqueNames(files) && f in files
    ensures f.name !in Names(victims) <==> |Ahead(files, f)| < n
  {
    CountKeepsTheNewest(files, n, now, victims, kept, f);
    DividedApart(files, victims, kept, f);
  }

  /** One rotation at `stamp` into a directory with none or one of the names of that second and the next. */
  lemma RotatesInto(cfg: Config, dir: Directory, live: seq<string>, stamp: nat, now: nat, dir': Directory, r: Rotation)
    requires Rotates(cfg, dir, live, stamp, now, dir', r) && ParseKeep(cfg.keep) == Newest(1) && !cfg.compress
    requires IsExtension(cfg.ext) && FourDigitYear(stamp + SECOND)
    ensures var a, b := NameAt(cfg, stamp, 0), NameAt(cfg, stamp, 1);
            (dir == map[] ==> dir' == map[a := live]) &&
            (dir.Keys == {a} ==> dir' == map[b := live]) &&
            (dir.Keys == {b} ==> dir' == dir)
  {
    hide Rotates, ParseKeep, StampOf, NameAt, Lists, Divided, IsExtension, Names, FourDigitYear;
    var a, b := NameAt(cfg, stamp, 0), NameAt(cfg, stamp, 1);
    EarlierYear(stamp, stamp + SECOND);
    assert a != b && a + ".gz" != b && b + ".gz" != a by {
      NamesDiffer(cfg, stamp, 0, 1);
      NamesDiffer(cfg, stamp, 1, 0);
    }
    StampsOfTwo(cfg, stamp);
    var whole := stamp - stamp % SECOND;
    var f, g := Rotated(a, whole), Rotated(b, whole + SECOND);
    if dir == map[] {
      RotatesTo(cfg, dir, live, stamp, now, dir', r, 0);
      OnlyOne(cfg, dir[a := live], r.files, now, r.victims, r.kept, f);
    } else if dir.Keys == {a} {
      RotatesTo(cfg, dir, live, stamp, now, dir', r, 1);
      LaterOfTwo(cfg, dir[b := live], r.files, now, r.victims, r.kept, f, g);
    } else if dir.Keys == {b} {
      RotatesTo(cfg, dir, live, stamp, now, dir', r, 0);
      LaterOfTwo(cfg, dir[a := live], r.files, now, r.victims, r.kept, f, g);
      assert dir == map[b := dir[b]];
    }
  }

  /** A rotation without compression goes to the first free second. */
  lemma RotatesTo(cfg: Config, dir: Directory, live: seq<string>, stamp: nat, now: nat, dir': Directory, r: Rotation, first: nat)
    requires Rotates(cfg, dir, live, stamp, now, dir', r) && !cfg.compress
    requires !Taken(dir, NameAt(cfg, stamp, first)) && forall j: nat | j < first :: Taken(dir, NameAt(cfg, stamp, j))
    ensures var with := dir[NameAt(cfg, stamp, first) := live];
            Lists(r.files, cfg, with) && Divided(r.files, ParseKeep(cfg.keep), now, r.victims, r.kept) && dir' == with - Names(r.victims)
  {
    hide Taken, NameAt, Lists, Divided, ParseKeep;
    FreeAt(cfg, dir, stamp, r.i, first);
  }

  lemma StampsOfTwo(cfg: Config, stamp: nat)
    requires IsExtension(cfg.ext) && FourDigitYear(stamp) && FourDigitYear(stamp + SECOND)
    ensures StampOf(cfg, NameAt(cfg, stamp, 0)) == Some(stamp - stamp % SECOND)
    ensures StampOf(cfg, NameAt(cfg, stamp, 1)) == Some(stamp - stamp % SECOND + SECOND)
  {
    hide StampOf, RotatedName, IsExtension;
    NameHasStamp(cfg, stamp);
    NameHasStamp(cfg, stamp + SECOND);
    SecondsApart(stamp, 1);
  }

  /** The search stops at the first free second. */
  lemma FreeAt(cfg: Config, dir: Directory, stamp: nat, i: nat, first: nat)
    requires FirstFree(cfg, dir, stamp, i)
    requires !Taken(dir, NameAt(cfg, stamp, first)) && forall j: nat | j < first :: Taken(dir, NameAt(cfg, stamp, j))
    ensures i == first
  {
    hide Taken, NameAt;
  }

  lemma OnlyOne(cfg: Config, dir: Directory, files: seq<Rotated>, now: int, victims: seq<Rotated>, kept: seq<Rotated>, f: Rotated)
    requires Lists(files, cfg, dir) && Divided(files, Newest(1), now, victims, kept)
    requires dir.Keys == {f.name} && StampOf(cfg, f.name) == Some(f.stamp)
    ensures dir - Names(victims) == dir
  {
    hide StampOf, Divided;
    assert f in files;
    assert Ahead(files, f) == {};
    Survives(files, 1, now, victims, kept, f);
  }

  /**
   With a count of one, the third rotation within one second deletes the file it has just
   made and keeps the one before: the first second's name was freed by pruning, is chosen
   again, and is then the older stamp.
   */
  lemma ThirdRotationIsLost(cfg: Config, a: seq<string>, b: seq<string>, c: seq<string>, stamp: nat, now: nat,
                            d1: Directory, d2: Directory, d3: Directory, r1: Rotation, r2: Rotation, r3: Rotation)
    requires ParseKeep(cfg.keep) == Newest(1) && !cfg.compress && IsExtension(cfg.ext) && FourDigitYear(stamp + SECOND)
    requires Rotates(cfg, map[], a, stamp, now, d1, r1)
    requires Rotates(cfg, d1, b, stamp, now, d2, r2)
    requires Rotates(cfg, d2, c, stamp, now, d3, r3)
    ensures d2 == map[NameAt(cfg, stamp, 1) := b] && d3 == d2
  {
    hide Rotates, NameAt, ParseKeep, IsExtension;
    RotatesInto(cfg, map[], a, stamp, now, d1, r1);
    RotatesInto(cfg, d1, b, stamp, now, d2, r2);
    RotatesInto(cfg, d2, c, stamp, now, d3, r3);
  }
}
