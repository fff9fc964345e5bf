/**
 Any number of nodes ensuring, rotating and pruning secrets at once: every interleaving of
 the statements of src/database/secret.go.
 */
module SecretRaces {
  import opened Results
  import opened Calendar
  import opened Secrets

  // Each call of EnsureSecret is a process that reads, generates, inserts and reads again; a
  // rotation is one transaction and a pruning one statement. Every node has its own clock, so
  // the times of rotations and prunings are arbitrary. An insert that reports an error may or
  // may not have taken effect.

  /** Where a call of EnsureSecret is. */
  datatype Phase =
    | Starting
    | Missing
    | Generated(candidate: string)
    | Inserted
    | Done(value: string, version: nat)
    | Failed

  datatype Call = Call(name: string, phase: Phase)

  datatype World = World(table: Table, calls: map<nat, Call>)

  datatype Step =
    | Start(id: nat, name: string)
    | Read(id: nat)
    | Generate(id: nat, candidate: string)
    | GenerateFails(id: nat)
    | Insert(id: nat)
    | InsertFails(id: nat, written: bool)
    | Reread(id: nat)
    | Rotate(name: string, candidate: string, now: int, grace: int)
    | Pruning(now: int)

  function WithPhase(w: World, id: nat, phase: Phase): World
    requires id in w.calls
  {
    w.(calls := w.calls[id := w.calls[id].(phase := phase)])
  }

  /** The outcome of reading a name now. */
  ghost function ReadNow(t: Table, name: string, missing: Phase): Phase {
    if Stored(t, name) then Done(t[Key(name, Top(t, name))].value, Top(t, name)) else missing
  }

  ghost predicate Next(w: World, step: Step, w': World) {
    match step
    case Start(id, name) => id !in w.calls && w' == w.(calls := w.calls[id := Call(name, Starting)])
    case Read(id) =>
      id in w.calls && w.calls[id].phase == Starting && w' == WithPhase(w, id, ReadNow(w.table, w.calls[id].name, Missing))
    case Generate(id, candidate) =>
      id in w.calls && w.calls[id].phase == Missing && candidate != "" && w' == WithPhase(w, id, Generated(candidate))
    case GenerateFails(id) => id in w.calls && w.calls[id].phase == Missing && w' == WithPhase(w, id, Failed)
    case Insert(id) =>
      id in w.calls && w.calls[id].phase.Generated? &&
      w' == WithPhase(w, id, Inserted).(table := InsertFirst(w.table, w.calls[id].name, w.calls[id].phase.candidate))
    case InsertFails(id, written) =>
      id in w.calls && w.calls[id].phase.Generated? &&
      w' == WithPhase(w, id, Failed)
            .(table := if written then InsertFirst(w.table, w.calls[id].name, w.calls[id].phase.candidate) else w.table)
    case Reread(id) =>
      id in w.calls && w.calls[id].phase == Inserted && w' == WithPhase(w, id, ReadNow(w.table, w.calls[id].name, Failed))
    case Rotate(name, candidate, now, grace) =>
      candidate != "" && Stored(w.table, name) &&
      w' == w.(table := RotateFrom(w.table, name, Top(w.table, name), candidate, Stamp(now + grace)))
    case Pruning(now) => w' == w.(table := Prune(w.table, now))
  }

  // ----- What the table keeps

  /** Versions start at 1, and a row without an expiry is the current one or a version 1. */
  ghost predicate TableOK(t: Table) {
    forall k | k in t ::
      k.version >= 1 &&
      (k.version == Top(t, k.name) ==> t[k].expires.None?) &&
      (t[k].expires.None? ==> k.version == Top(t, k.name) || k.version == 1)
  }

  lemma TopIs(t: Table, name: string, v: nat)
    requires IsTop(t, name, v)
    ensures Stored(t, name) && Top(t, name) == v
  {
    assert Key(name, v) in t && Key(name, v).name == name;
  }

  /** What happens to one name between two tables. */
  ghost predicate Kept(t: Table, t': Table, name: string) {
    Stored(t, name) ==>
      Stored(t', name) && Top(t', name) >= Top(t, name) &&
      (Top(t', name) == Top(t, name) ==> t'[Key(name, Top(t, name))] == t[Key(name, Top(t, name))])
  }

  lemma InsertKeeps(t: Table, name: string, value: string, other: string)
    requires TableOK(t)
    ensures TableOK(InsertFirst(t, name, value)) && Kept(t, InsertFirst(t, name, value), other)
    ensures Stored(InsertFirst(t, name, value), name)
    ensures Stored(t, other) ==> Top(InsertFirst(t, name, value), other) == Top(t, other)
  {
    var t' := InsertFirst(t, name, value);
    assert Key(name, 1) in t' && Key(name, 1).name == name;
    forall n | Stored(t, n) ensures Stored(t', n) && Top(t', n) == Top(t, n) {
      TopIs(t', n, Top(t, n));
    }
    if !Stored(t, name) {
      TopIs(t', name, 1);
    }
    forall k | k in t' ensures t'[k].expires.None? ==> k.version == Top(t', k.name) || k.version == 1 {
      if k in t {
        assert Stored(t, k.name);
      }
    }
    forall k | k in t' && k.version == Top(t', k.name) ensures t'[k].expires.None? {
      if k in t {
        assert Stored(t, k.name);
      }
    }
  }

  lemma RotateKeeps(t: Table, name: string, value: string, expires: int, other: string)
    requires TableOK(t) && Stored(t, name)
    ensures var t' := RotateFrom(t, name, Top(t, name), value, expires);
            TableOK(t') && Kept(t, t', other) &&
            Stored(t', name) && Top(t', name) == Top(t, name) + 1 && t'[Key(name, Top(t, name) + 1)] == Row(value, None)
    ensures var t' := RotateFrom(t, name, Top(t, name), value, expires);
            other != name && Stored(t, other) ==> Stored(t', other) && Top(t', other) == Top(t, other)
  {
    var v := Top(t, name);
    var t' := RotateFrom(t, name, v, value, expires);
    TopIs(t', name, v + 1);
    forall n | n != name && Stored(t, n) ensures Stored(t', n) && Top(t', n) == Top(t, n) {
      TopIs(t', n, Top(t, n));
    }
    forall k | k in t'
      ensures k.version >= 1
      ensures k.version == Top(t', k.name) ==> t'[k].expires.None?
      ensures t'[k].expires.None? ==> k.version == Top(t', k.name) || k.version == 1
    {
      if k in t {
        assert Stored(t, k.name) && k.version <= Top(t, k.name);
      }
    }
  }

  lemma PruneKeeps(t: Table, now: int, other: string)
    requires TableOK(t)
    ensures TableOK(Prune(t, now)) && Kept(t, Prune(t, now), other)
    ensures Stored(t, other) ==> Stored(Prune(t, now), other) && Top(Prune(t, now), other) == Top(t, other)
  {
    var t' := Prune(t, now);
    forall n | Stored(t, n) ensures Stored(t', n) && Top(t', n) == Top(t, n) {
      var top := Key(n, Top(t, n));
      assert !Prunable(t, top, now);
      TopIs(t', n, Top(t, n));
    }
    forall k | k in t'
      ensures k.version == Top(t', k.name) ==> t'[k].expires.None?
      ensures t'[k].expires.None? ==> k.version == Top(t', k.name) || k.version == 1
    {
      assert k in t && Stored(t, k.name);
    }
  }

  lemma KeptSelf(t: Table, name: string)
    ensures Kept(t, t, name)
  {}

  lemma KeptTwice(a: Table, b: Table, c: Table, name: string)
    requires Kept(a, b, name) && Kept(b, c, name)
    ensures Kept(a, c, name)
  {}

  // ----- What every step keeps

  /** After its insert a call finds the name in the table. */
  ghost predicate Inv(w: World) {
    TableOK(w.table) && forall id | id in w.calls && w.calls[id].phase == Inserted :: Stored(w.table, w.calls[id].name)
  }

  /** The name a step may rotate, insert or prune rows of; steps on calls change no row otherwise. */
  ghost predicate IsRotation(step: Step, name: string) {
    step.Rotate? && step.name == name
  }

  lemma TableStep(w: World, step: Step, w': World, name: string)
    requires Inv(w) && Next(w, step, w')
    ensures TableOK(w'.table) && Kept(w.table, w'.table, name)
    ensures Stored(w.table, name) && !IsRotation(step, name) ==> Stored(w'.table, name) && Top(w'.table, name) == Top(w.table, name)
  {
    hide TableOK, Kept, InsertFirst, RotateFrom, Prune;
    match step {
      case Insert(id) => InsertKeeps(w.table, w.calls[id].name, w.calls[id].phase.candidate, name);
      case InsertFails(id, _) => InsertKeeps(w.table, w.calls[id].name, w.calls[id].phase.candidate, name);
        KeptSelf(w.table, name);
      case Rotate(n, candidate, now, grace) => RotateKeeps(w.table, n, candidate, Stamp(now + grace), name);
      case Pruning(now) => PruneKeeps(w.table, now, name);
      case _ => KeptSelf(w.table, name);
    }
  }

  lemma NextInv(w: World, step: Step, w': World)
    requires Inv(w) && Next(w, step, w')
    ensures Inv(w')
  {
    TableStep(w, step, w', "");
    forall id | id in w'.calls && w'.calls[id].phase == Inserted ensures Stored(w'.table, w'.calls[id].name) {
      if step == Insert(id) {
        InsertKeeps(w.table, w.calls[id].name, w.calls[id].phase.candidate, "");
      } else {
        assert id in w.calls && w.calls[id] == w'.calls[id];
        TableStep(w, step, w', w.calls[id].name);
      }
    }
  }

  // ----- Every run

  ghost predicate Behaviour(ws: seq<World>, steps: seq<Step>) {
    |ws| == |steps| + 1 && TableOK(ws[0].table) && ws[0].calls == map[] &&
    forall i | 0 <= i < |steps| :: Next(ws[i], steps[i], ws[i + 1])
  }

  lemma {:induction false} BehaviourInv(ws: seq<World>, steps: seq<Step>, i: nat)
    requires Behaviour(ws, steps) && i < |ws|
    ensures Inv(ws[i])
  {
    hide Next, TableOK;
    if i > 0 {
      BehaviourInv(ws, steps, i - 1);
      NextInv(ws[i - 1], steps[i - 1], ws[i]);
    }
  }

  /**
   From any point of a run on: a stored name stays stored, its current version never goes
   down, and while the version is the same its row is the same.
   */
  lemma {:induction false} NamesAreKept(ws: seq<World>, steps: seq<Step>, i: nat, j: nat, name: string)
    requires Behaviour(ws, steps) && i <= j < |ws|
    ensures Kept(ws[i].table, ws[j].table, name)
    decreases j
  {
    hide Next, TableOK, Kept;
    if i == j {
      KeptSelf(ws[i].table, name);
    } else {
      NamesAreKept(ws, steps, i, j - 1, name);
      BehaviourInv(ws, steps, j - 1);
      TableStep(ws[j - 1], steps[j - 1], ws[j], name);
      KeptTwice(ws[i].table, ws[j - 1].table, ws[j].table, name);
    }
  }

  /** A call that inserted never fails at its second read. */
  lemma RereadFinds(ws: seq<World>, steps: seq<Step>, i: nat, id: nat)
    requires Behaviour(ws, steps) && i < |steps| && steps[i] == Reread(id)
    ensures ws[i + 1].calls[id].phase.Done?
  {
    BehaviourInv(ws, steps, i);
    assert Next(ws[i], steps[i], ws[i + 1]);
  }

  /** The read that gave a finished call its result. */
  ghost predicate ReadAt(w: World, step: Step, id: nat, name: string, value: string, version: nat) {
    (step == Read(id) || step == Reread(id)) && id in w.calls && w.calls[id].name == name &&
    IsTop(w.table, name, version) && w.table[Key(name, version)].value == value
  }

  /** A finished call returns the row that was current when it made one of its reads. */
  lemma {:induction false} ResultWasCurrent(ws: seq<World>, steps: seq<Step>, j: nat, id: nat) returns (k: nat)
    requires Behaviour(ws, steps) && j < |ws| && id in ws[j].calls && ws[j].calls[id].phase.Done?
    ensures k < j && ReadAt(ws[k], steps[k], id, ws[j].calls[id].name, ws[j].calls[id].phase.value, ws[j].calls[id].phase.version)
  {
    assert j > 0;
    var w, step, w' := ws[j - 1], steps[j - 1], ws[j];
    assert Next(w, step, w');
    if id in w.calls && w.calls[id] == w'.calls[id] {
      k := ResultWasCurrent(ws, steps, j - 1, id);
    } else {
      k := j - 1;
    }
  }

  lemma {:induction false} WithoutRotation(ws: seq<World>, steps: seq<Step>, i: nat, j: nat, name: string)
    requires Behaviour(ws, steps) && i <= j < |ws| && Stored(ws[i].table, name)
    requires forall m | i <= m < j :: !IsRotation(steps[m], name)
    ensures Stored(ws[j].table, name) && Top(ws[j].table, name) == Top(ws[i].table, name)
    decreases j
  {
    hide Next, TableOK;
    if i < j {
      WithoutRotation(ws, steps, i, j - 1, name);
      BehaviourInv(ws, steps, j - 1);
      TableStep(ws[j - 1], steps[j - 1], ws[j], name);
    }
  }

  /** Without rotations of a name, all calls that finish return one and the same value. */
  lemma AllCallsAgree(ws: seq<World>, steps: seq<Step>, n: nat, a: nat, b: nat)
    requires Behaviour(ws, steps) && n < |ws|
    requires a in ws[n].calls && b in ws[n].calls && ws[n].calls[a].name == ws[n].calls[b].name
    requires ws[n].calls[a].phase.Done? && ws[n].calls[b].phase.Done?
    requires forall m | 0 <= m < n :: !IsRotation(steps[m], ws[n].calls[a].name)
    ensures ws[n].calls[a].phase == ws[n].calls[b].phase
  {
    var i := ResultWasCurrent(ws, steps, n, a);
    var j := ResultWasCurrent(ws, steps, n, b);
    hide Next, TableOK;
    var name := ws[n].calls[a].name;
    TopIs(ws[i].table, name, ws[n].calls[a].phase.version);
    TopIs(ws[j].table, name, ws[n].calls[b].phase.version);
    var lo, hi := if i <= j then i else j, if i <= j then j else i;
    WithoutRotation(ws, steps, lo, hi, name);
    NamesAreKept(ws, steps, lo, hi, name);
  }

  // ----- Grace windows

  /** A step that deletes rows whose expiry is `expires`. */
  predicate PrunesAfter(step: Step, expires: int) {
    step.Pruning? && expires < Stamp(step.now)
  }

  lemma DatedRowStep(w: World, step: Step, w': World, k: Key)
    requires Inv(w) && Next(w, step, w') && k in w.table && w.table[k].expires.Some?
    requires !PrunesAfter(step, w.table[k].expires.value)
    ensures k in w'.table && w'.table[k] == w.table[k]
  {
    if step.Rotate? && step.name == k.name {
      assert Stored(w.table, k.name);
      assert k.version != Top(w.table, k.name);
      assert k.version <= Top(w.table, k.name);
    }
  }

  /** A row with an expiry stays as it is until a pruning after that expiry. */
  lemma {:induction false} DatedRowStays(ws: seq<World>, steps: seq<Step>, i: nat, j: nat, k: Key)
    requires Behaviour(ws, steps) && i <= j < |ws| && k in ws[i].table && ws[i].table[k].expires.Some?
    requires forall m | i <= m < j :: !PrunesAfter(steps[m], ws[i].table[k].expires.value)
    ensures k in ws[j].table && ws[j].table[k] == ws[i].table[k]
    decreases j
  {
    hide Next, TableOK;
    if i < j {
      DatedRowStays(ws, steps, i, j - 1, k);
      BehaviourInv(ws, steps, j - 1);
      DatedRowStep(ws[j - 1], steps[j - 1], ws[j], k);
    }
  }

  /**
   The row that a rotation supersedes keeps its value as long as no pruning uses a time
   after the end of the grace window.
   */
  lemma RotatedOutRowStays(ws: seq<World>, steps: seq<Step>, i: nat, j: nat)
    requires Behaviour(ws, steps) && i < j < |ws| && steps[i].Rotate?
    requires forall m | i < m < j && steps[m].Pruning? :: steps[m].now <= steps[i].now + steps[i].grace
    ensures var name := steps[i].name;
            Stored(ws[i].table, name) &&
            var k := Key(name, Top(ws[i].table, name));
            k in ws[j].table && ws[j].table[k].value == ws[i].table[k].value
  {
    var name := steps[i].name;
    assert Next(ws[i], steps[i], ws[i + 1]);
    var k := Key(name, Top(ws[i].table, name));
    var e := Stamp(steps[i].now + steps[i].grace);
    assert k in ws[i + 1].table && ws[i + 1].table[k] == Row(ws[i].table[k].value, Some(e));
    forall m | i < m < j ensures !PrunesAfter(steps[m], e) {
      if steps[m].Pruning? && e < Stamp(steps[m].now) {
        StampOrder(steps[i].now + steps[i].grace, steps[m].now);
      }
    }
    DatedRowStays(ws, steps, i + 1, j, k);
  }

  // ----- Which superseded rows have an expiry

  /** Every superseded row has an expiry. */
  ghost predicate AllDated(t: Table) {
    forall k | k in t && k.version != Top(t, k.name) :: t[k].expires.Some?
  }

  /** An insert of version 1 that takes effect below a version that is already there. */
  ghost predicate InsertsLate(w: World, step: Step) {
    (step.Insert? || (step.InsertFails? && step.written)) && step.id in w.calls &&
    Stored(w.table, w.calls[step.id].name) && Key(w.calls[step.id].name, 1) !in w.table
  }

  lemma LateInsertLeavesUndated(t: Table, name: string, value: string)
    requires TableOK(t) && Stored(t, name) && Key(name, 1) !in t
    ensures !AllDated(InsertFirst(t, name, value))
  {
    InsertKeeps(t, name, value, name);
    var t' := InsertFirst(t, name, value);
    assert Key(name, Top(t, name)) in t;
    assert Key(name, 1) in t' && Key(name, 1).version != Top(t', name);
  }

  lemma InsertKeepsDated(t: Table, name: string, value: string)
    requires TableOK(t) && AllDated(t) && (Stored(t, name) ==> Key(name, 1) in t)
    ensures AllDated(InsertFirst(t, name, value))
  {
    var t' := InsertFirst(t, name, value);
    forall k | k in t' && k.version != Top(t', k.name) ensures t'[k].expires.Some? {
      InsertKeeps(t, name, value, k.name);
      if k in t {
        assert Stored(t, k.name);
      }
    }
  }

  lemma RotateKeepsDated(t: Table, name: string, value: string, expires: int)
    requires TableOK(t) && AllDated(t) && Stored(t, name)
    ensures AllDated(RotateFrom(t, name, Top(t, name), value, expires))
  {
    var t' := RotateFrom(t, name, Top(t, name), value, expires);
    forall k | k in t' && k.version != Top(t', k.name) ensures t'[k].expires.Some? {
      RotateKeeps(t, name, value, expires, k.name);
      if k in t {
        assert Stored(t, k.name);
      }
    }
  }

  lemma PruneKeepsDated(t: Table, now: int)
    requires TableOK(t) && AllDated(t)
    ensures AllDated(Prune(t, now))
  {
    var t' := Prune(t, now);
    forall k | k in t' && k.version != Top(t', k.name) ensures t'[k].expires.Some? {
      PruneKeeps(t, now, k.name);
      assert k in t && Stored(t, k.name);
    }
  }

  /** A step keeps all superseded rows dated exactly when it is no late insert. */
  lemma StepKeepsDatedIff(w: World, step: Step, w': World)
    requires Inv(w) && AllDated(w.table) && Next(w, step, w')
    ensures AllDated(w'.table) <==> !InsertsLate(w, step)
  {
    hide TableOK, AllDated, InsertFirst, RotateFrom, Prune;
    match step {
      case Insert(id) => InsertDatedIff(w.table, w.calls[id].name, w.calls[id].phase.candidate);
      case InsertFails(id, _) => InsertDatedIff(w.table, w.calls[id].name, w.calls[id].phase.candidate);
      case Rotate(n, candidate, now, grace) => RotateKeepsDated(w.table, n, candidate, Stamp(now + grace));
      case Pruning(now) => PruneKeepsDated(w.table, now);
      case _ =>
    }
  }

  lemma InsertDatedIff(t: Table, name: string, value: string)
    requires TableOK(t) && AllDated(t)
    ensures AllDated(InsertFirst(t, name, value)) <==> !(Stored(t, name) && Key(name, 1) !in t)
  {
    hide TableOK, AllDated, InsertFirst;
    if Stored(t, name) && Key(name, 1) !in t {
      LateInsertLeavesUndated(t, name, value);
    } else {
      InsertKeepsDated(t, name, value);
    }
  }

  /**
   Throughout a run every superseded row has an expiry exactly when no call inserts its
   version 1 while the name is stored without one.
   */
  lemma {:induction false} AlwaysDatedIff(ws: seq<World>, steps: seq<Step>, n: nat)
    requires Behaviour(ws, steps) && n < |ws| && AllDated(ws[0].table)
    ensures (forall i | 0 <= i <= n :: AllDated(ws[i].table)) <==> forall i | 0 <= i < n :: !InsertsLate(ws[i], steps[i])
  {
    hide Next, TableOK, AllDated, InsertsLate;
    if n > 0 {
      AlwaysDatedIff(ws, steps, n - 1);
      BehaviourInv(ws, steps, n - 1);
      if AllDated(ws[n - 1].table) {
        StepKeepsDatedIff(ws[n - 1], steps[n - 1], ws[n]);
      }
    }
  }

  // ----- A row that pruning can never delete

  /** A version 1 without an expiry below a higher version. */
  ghost predicate Stranded(t: Table, name: string) {
    Key(name, 1) in t && t[Key(name, 1)].expires.None? && Stored(t, name) && Top(t, name) > 1
  }

  lemma StrandedStep(w: World, step: Step, w': World, name: string)
    requires Inv(w) && Next(w, step, w') && Stranded(w.table, name)
    ensures Stranded(w'.table, name) && w'.table[Key(name, 1)] == w.table[Key(name, 1)]
  {
    TableStep(w, step, w', name);
    hide TableOK, InsertFirst, RotateFrom, Prune;
    match step {
      case Insert(id) => RowStaysInsert(w.table, w.calls[id].name, w.calls[id].phase.candidate, name);
      case InsertFails(id, _) => RowStaysInsert(w.table, w.calls[id].name, w.calls[id].phase.candidate, name);
      case Rotate(n, candidate, now, grace) => RowStaysRotate(w.table, n, candidate, Stamp(now + grace), name);
      case Pruning(now) => RowStaysPrune(w.table, now, name);
      case _ =>
    }
  }

  lemma RowStaysInsert(t: Table, n: string, candidate: string, name: string)
    requires Stranded(t, name)
    ensures Key(name, 1) in InsertFirst(t, n, candidate) && InsertFirst(t, n, candidate)[Key(name, 1)] == t[Key(name, 1)]
  {}

  lemma RowStaysRotate(t: Table, n: string, candidate: string, expiry: int, name: string)
    requires TableOK(t) && Stranded(t, name) && Stored(t, n)
    ensures var t' := RotateFrom(t, n, Top(t, n), candidate, expiry); Key(name, 1) in t' && t'[Key(name, 1)] == t[Key(name, 1)]
  {}

  lemma RowStaysPrune(t: Table, now: int, name: string)
    requires Stranded(t, name)
    ensures Key(name, 1) in Prune(t, now) && Prune(t, now)[Key(name, 1)] == t[Key(name, 1)]
  {}

  /** Such a row has no grace window, and no later step ever dates or deletes it. */
  lemma {:induction false} StrandedForever(ws: seq<World>, steps: seq<Step>, i: nat, j: nat, name: string)
    requires Behaviour(ws, steps) && i <= j < |ws| && Stranded(ws[i].table, name)
    ensures Stranded(ws[j].table, name) && ws[j].table[Key(name, 1)] == ws[i].table[Key(name, 1)]
    decreases j
  {
    hide Next, TableOK, Stranded;
    if i < j {
      StrandedForever(ws, steps, i, j - 1, name);
      BehaviourInv(ws, steps, j - 1);
      StrandedStep(ws[j - 1], steps[j - 1], ws[j], name);
    }
  }

  lemma Extend(ws: seq<World>, steps: seq<Step>, step: Step, w: World)
    requires Behaviour(ws, steps) && Next(ws[|ws| - 1], step, w)
    ensures Behaviour(ws + [w], steps + [step])
  {
    hide Next, TableOK;
  }

  /** Two calls reach the point where both are about to store a candidate. */
  lemma TwoCandidates(name: string, a: string, b: string) returns (ws: seq<World>, steps: seq<Step>)
    requires a != "" && b != ""
    ensures Behaviour(ws, steps) && |ws| == 7
    ensures ws[6] == World(map[], map[0 := Call(name, Generated(a)), 1 := Call(name, Generated(b))])
  {
    hide TableOK;
    var w := World(map[], map[]);
    assert !Stored(w.table, name);
    ws, steps := [w], [];
    assert TableOK(w.table) by {
      EmptyTable();
    }
    ws, steps := Then(ws, steps, Start(0, name), w.(calls := map[0 := Call(name, Starting)]));
    ws, steps := Then(ws, steps, Read(0), w.(calls := map[0 := Call(name, Missing)]));
    ws, steps := Then(ws, steps, Generate(0, a), w.(calls := map[0 := Call(name, Generated(a))]));
    var calls := map[0 := Call(name, Generated(a)), 1 := Call(name, Starting)];
    ws, steps := Then(ws, steps, Start(1, name), w.(calls := calls));
    ws, steps := Then(ws, steps, Read(1), w.(calls := calls[1 := Call(name, Missing)]));
    ws, steps := Then(ws, steps, Generate(1, b), w.(calls := calls[1 := Call(name, Generated(b))]));
  }

  lemma EmptyTable()
    ensures TableOK(map[])
  {}

  lemma Then(ws: seq<World>, steps: seq<Step>, step: Step, w: World) returns (ws': seq<World>, steps': seq<Step>)
    requires Behaviour(ws, steps) && Next(ws[|ws| - 1], step, w)
    ensures Behaviour(ws', steps') && |ws'| == |ws| + 1 && ws'[|ws|] == w
  {
    Extend(ws, steps, step, w);
    ws', steps' := ws + [w], steps + [step];
  }

  /** After one rotation without a grace window and a pruning only version 2 is left. */
  lemma OneVersionLeft(name: string, value: string, next: string)
    ensures var t := map[Key(name, 1) := Row(value, None)];
            Stored(t, name) && Top(t, name) == 1 &&
            RotateFrom(t, name, 1, next, 0) == map[Key(name, 1) := Row(value, Some(0)), Key(name, 2) := Row(next, None)]
    ensures Prune(map[Key(name, 1) := Row(value, Some(0)), Key(name, 2) := Row(next, None)], SECOND) ==
            map[Key(name, 2) := Row(next, None)]
  {
    TopIs(map[Key(name, 1) := Row(value, None)], name, 1);
    var t := map[Key(name, 1) := Row(value, Some(0)), Key(name, 2) := Row(next, None)];
    assert Key(name, 2) in t && Key(name, 2).version > 1;
    assert Prunable(t, Key(name, 1), SECOND);
    assert !Prunable(t, Key(name, 2), SECOND);
  }

  /**
   A stranded row is reachable: a slow call that found the name missing stores its
   candidate as version 1 after another node's version 1 was rotated out and pruned.
   */
  lemma LateInsertStrandsARow(name: string, a: string, b: string, c: string) returns (ws: seq<World>, steps: seq<Step>)
    requires a != "" && b != "" && c != ""
    ensures Behaviour(ws, steps) && |ws| == 11
    ensures Stranded(ws[10].table, name) && ws[10].table[Key(name, 1)].value == a && Top(ws[10].table, name) == 2
  {
    ws, steps := TwoCandidates(name, a, b);
    hide TableOK, Prune, RotateFrom;
    OneVersionLeft(name, b, c);
    var slow := Call(name, Generated(a));
    var calls := map[0 := slow, 1 := Call(name, Inserted)];
    var t := map[Key(name, 1) := Row(b, None)];
    ws, steps := Then(ws, steps, Insert(1), World(t, calls));
    t := map[Key(name, 1) := Row(b, Some(0)), Key(name, 2) := Row(c, None)];
    ws, steps := Then(ws, steps, Rotate(name, c, 0, 0), World(t, calls));
    t := map[Key(name, 2) := Row(c, None)];
    ws, steps := Then(ws, steps, Pruning(SECOND), World(t, calls));
    t := map[Key(name, 1) := Row(a, None), Key(name, 2) := Row(c, None)];
    ws, steps := Then(ws, steps, Insert(0), World(t, calls[0 := Call(name, Inserted)]));
    TopIs(t, name, 2);
  }
}
