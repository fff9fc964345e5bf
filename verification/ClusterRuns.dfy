/**
 Runs of tasks on the nodes of a cluster that share one lock table: every interleaving of
 src/scheduler/scheduler.go with src/scheduler/lock.go.
 */
module ClusterRuns {
  import opened Results
  import opened ClusterLocks
  import opened Scheduler

  // The steps are those of tick and runEntry and the two statements on the lock table. Nodes
  // have distinct ids and share one clock that never goes back. A step may use a reading of
  // the clock that is already old, because a run reads it once and acts later. A statement
  // that reports an error may or may not have taken effect. A node may crash, which forgets
  // its runs but not its lock rows, and come back under the same id.

  /**
   How far a run is: its goroutine exists, it has read the clock, it is executing the
   task since that reading, or it only has its task to free and reschedule.
   */
  datatype Phase = Spawned | Timed(now: nat) | Executing(now: nat) | Closing(now: nat)

  datatype Run = Run(node: string, task: string, phase: Phase)

  datatype Cluster = Cluster(
    clock: nat,
    rows: map<string, Row>,
    slots: map<string, map<string, Slot>>,
    runs: map<nat, Run>)

  datatype Step =
    | Wait(to: nat)
    | Tick(node: string, now: nat)
    | ReadClock(id: nat)
    | Lock(id: nat)
    | LockError(id: nat, written: bool)
    | StartUnlocked(id: nat)
    | Unlock(id: nat)
    | UnlockError(id: nat, written: bool)
    | FinishUnlocked(id: nat)
    | Clear(id: nat, next: nat)
    | Crash(node: string, restarted: map<string, Slot>)

  /** The lock name of a task. */
  function LockName(task: string): string {
    "scheduler:" + task
  }

  lemma LockNameInjective(a: string, b: string)
    requires LockName(a) == LockName(b)
    ensures a == b
  {
    assert LockName(a)[10..] == a && LockName(b)[10..] == b;
  }

  function WithPhase(c: Cluster, id: nat, phase: Phase): Cluster
    requires id in c.runs
  {
    c.(runs := c.runs[id := c.runs[id].(phase := phase)])
  }

  predicate IsNew(c: Cluster, c': Cluster, id: nat) {
    id in c'.runs && id !in c.runs
  }

  /** The task has a new run. */
  ghost predicate HasNew(c: Cluster, c': Cluster, task: string) {
    exists id :: IsNew(c, c', id) && c'.runs[id].task == task
  }

  /** The ids in `c'` but not in `c` are one spawned run of the node for each of the tasks. */
  ghost predicate Spawns(c: Cluster, c': Cluster, node: string, tasks: set<string>) {
    (forall id | id in c.runs :: id in c'.runs && c'.runs[id] == c.runs[id]) &&
    (forall id | IsNew(c, c', id) :: c'.runs[id].node == node && c'.runs[id].phase == Spawned && c'.runs[id].task in tasks) &&
    (forall t | t in tasks :: HasNew(c, c', t)) &&
    (forall a, b | IsNew(c, c', a) && IsNew(c, c', b) && a != b :: c'.runs[a].task != c'.runs[b].task)
  }

  predicate Is(c: Cluster, id: nat, phase: Phase -> bool) {
    id in c.runs && phase(c.runs[id].phase)
  }

  /** One step of the cluster; `aware` holds the names of the cluster-aware tasks. */
  ghost predicate Next(aware: set<string>, c: Cluster, step: Step, c': Cluster) {
    match step
    case Wait(to) => to >= c.clock && c' == c.(clock := to)
    case Tick(node, now) =>
      node in c.slots && now <= c.clock &&
      Spawns(c, c', node, Due(c.slots[node], now)) &&
      c' == c.(slots := c.slots[node := MarkDue(c.slots[node], now)], runs := c'.runs)
    case ReadClock(id) => Is(c, id, (p: Phase) => p.Spawned?) && c' == WithPhase(c, id, Timed(c.clock))
    case Lock(id) =>
      Is(c, id, (p: Phase) => p.Timed?) && c.runs[id].task in aware &&
      var r := c.runs[id];
      var got := CanTake(c.rows, LockName(r.task), r.node, r.phase.now);
      c' == WithPhase(c, id, if got then Executing(r.phase.now) else Closing(r.phase.now))
            .(rows := Acquire(c.rows, LockName(r.task), r.node, r.phase.now))
    case LockError(id, written) =>
      Is(c, id, (p: Phase) => p.Timed?) && c.runs[id].task in aware &&
      var r := c.runs[id];
      c' == WithPhase(c, id, Closing(r.phase.now))
            .(rows := if written then Acquire(c.rows, LockName(r.task), r.node, r.phase.now) else c.rows)
    case StartUnlocked(id) =>
      Is(c, id, (p: Phase) => p.Timed?) && c.runs[id].task !in aware && c' == WithPhase(c, id, Executing(c.runs[id].phase.now))
    case Unlock(id) =>
      Is(c, id, (p: Phase) => p.Executing?) && c.runs[id].task in aware &&
      var r := c.runs[id];
      c' == WithPhase(c, id, Closing(r.phase.now)).(rows := Release(c.rows, LockName(r.task), r.node))
    case UnlockError(id, written) =>
      Is(c, id, (p: Phase) => p.Executing?) && c.runs[id].task in aware &&
      var r := c.runs[id];
      c' == WithPhase(c, id, Closing(r.phase.now)).(rows := if written then Release(c.rows, LockName(r.task), r.node) else c.rows)
    case FinishUnlocked(id) =>
      Is(c, id, (p: Phase) => p.Executing?) && c.runs[id].task !in aware && c' == WithPhase(c, id, Closing(c.runs[id].phase.now))
    case Clear(id, next) =>
      Is(c, id, (p: Phase) => p.Closing?) && c.runs[id].node in c.slots && c.runs[id].task in c.slots[c.runs[id].node] &&
      var r := c.runs[id];
      c' == c.(runs := c.runs - {id},
               slots := c.slots[r.node := c.slots[r.node][r.task := c.slots[r.node][r.task].(running := false, next := next)]])
    case Crash(node, restarted) =>
      (forall t | t in restarted :: !restarted[t].running) &&
      c' == c.(slots := c.slots[node := restarted], runs := map id | id in c.runs && c.runs[id].node != node :: c.runs[id])
  }

  predicate Init(c: Cluster) {
    c.runs == map[] && forall n, t | n in c.slots && t in c.slots[n] :: !c.slots[n][t].running
  }

  // ----- What every step keeps

  predicate Flagged(c: Cluster, id: nat)
    requires id in c.runs
  {
    var r := c.runs[id];
    r.node in c.slots && r.task in c.slots[r.node] && c.slots[r.node][r.task].running
  }

  /** The run executes a cluster-aware task and its lock has not run out. */
  predicate Timely(aware: set<string>, c: Cluster, id: nat)
    requires id in c.runs
  {
    var r := c.runs[id];
    r.phase.Executing? && r.task in aware && c.clock <= r.phase.now + LOCK_TTL
  }

  /** The lock row is the one the run wrote when it started executing. */
  predicate Named(c: Cluster, id: nat)
    requires id in c.runs && c.runs[id].phase.Executing?
  {
    var r := c.runs[id];
    LockName(r.task) in c.rows && c.rows[LockName(r.task)] == Row(r.node, r.phase.now, Some(r.phase.now + LOCK_TTL))
  }

  predicate SameJob(r: Run, q: Run) {
    r.node == q.node && r.task == q.task
  }

  predicate Inv(aware: set<string>, c: Cluster) {
    (forall id | id in c.runs :: Flagged(c, id)) &&
    (forall a, b | a in c.runs && b in c.runs && a != b :: !SameJob(c.runs[a], c.runs[b])) &&
    (forall id | id in c.runs && !c.runs[id].phase.Spawned? :: c.runs[id].phase.now <= c.clock) &&
    (forall id | id in c.runs && Timely(aware, c, id) :: Named(c, id))
  }

  /** A release never removes or changes a row of another holder, whatever its age. */
  lemma ReleaseRespectsOthers(rows: map<string, Row>, name: string, holder: string, other: string)
    requires other in rows && rows[other].holder != holder
    ensures other in Release(rows, name, holder) && Release(rows, name, holder)[other] == rows[other]
  {}

  lemma InitInv(aware: set<string>, c: Cluster)
    requires Init(c)
    ensures Inv(aware, c)
  {}

  lemma TickFlags(aware: set<string>, c: Cluster, node: string, now: nat, c': Cluster)
    requires Inv(aware, c) && Next(aware, c, Tick(node, now), c')
    ensures forall id | id in c'.runs :: Flagged(c', id)
  {
    hide HasNew;
    forall id | id in c'.runs ensures Flagged(c', id) {
      if id in c.runs {
        assert Flagged(c, id);
      }
    }
  }

  lemma TickApart(aware: set<string>, c: Cluster, node: string, now: nat, c': Cluster)
    requires Inv(aware, c) && Next(aware, c, Tick(node, now), c')
    ensures forall a, b | a in c'.runs && b in c'.runs && a != b :: !SameJob(c'.runs[a], c'.runs[b])
  {
    hide HasNew;
    forall a, b | a in c'.runs && b in c'.runs && a != b ensures !SameJob(c'.runs[a], c'.runs[b]) {
      if a in c.runs && b !in c.runs {
        assert Flagged(c, a);
      } else if b in c.runs && a !in c.runs {
        assert Flagged(c, b);
      }
    }
  }

  lemma TickNames(aware: set<string>, c: Cluster, node: string, now: nat, c': Cluster)
    requires Inv(aware, c) && Next(aware, c, Tick(node, now), c')
    ensures forall id | id in c'.runs && Timely(aware, c', id) :: Named(c', id)
    ensures forall id | id in c'.runs && !c'.runs[id].phase.Spawned? :: c'.runs[id].phase.now <= c'.clock
  {
    hide HasNew, Flagged, SameJob;
    forall id | id in c'.runs && Timely(aware, c', id) ensures Named(c', id) {
      assert Timely(aware, c, id);
    }
  }

  lemma TickInv(aware: set<string>, c: Cluster, node: string, now: nat, c': Cluster)
    requires Inv(aware, c) && Next(aware, c, Tick(node, now), c')
    ensures Inv(aware, c')
  {
    TickFlags(aware, c, node, now, c');
    TickApart(aware, c, node, now, c');
    TickNames(aware, c, node, now, c');
    hide Next, Flagged, SameJob, Timely, Named;
  }

  /** A timely run's row cannot be taken by another node. */
  lemma RowKept(aware: set<string>, c: Cluster, id: nat, name: string, holder: string, now: nat)
    requires id in c.runs && Timely(aware, c, id) && Named(c, id)
    requires now <= c.clock && (name == LockName(c.runs[id].task) ==> holder != c.runs[id].node)
    ensures var k := LockName(c.runs[id].task);
            k in Acquire(c.rows, name, holder, now) && Acquire(c.rows, name, holder, now)[k] == c.rows[k]
    ensures var k := LockName(c.runs[id].task);
            k in Release(c.rows, name, holder) && Release(c.rows, name, holder)[k] == c.rows[k]
  {}

  /** The rows are as before, or the run acquired or released the row of its own task. */
  predicate TouchesOwnRow(c: Cluster, r: Run, rows: map<string, Row>) {
    rows == c.rows || (!r.phase.Spawned? && rows == Acquire(c.rows, LockName(r.task), r.node, r.phase.now)) ||
    rows == Release(c.rows, LockName(r.task), r.node)
  }

  /** Steps in which one run changes its phase and at most the row of its own task. */
  lemma PhaseInv(aware: set<string>, c: Cluster, id: nat, phase: Phase, rows: map<string, Row>)
    requires Inv(aware, c) && id in c.runs
    requires !phase.Spawned? ==> phase.now <= c.clock
    requires TouchesOwnRow(c, c.runs[id], rows)
    requires Timely(aware, WithPhase(c, id, phase).(rows := rows), id) ==> Named(WithPhase(c, id, phase).(rows := rows), id)
    ensures Inv(aware, WithPhase(c, id, phase).(rows := rows))
  {
    var r := c.runs[id];
    var c' := WithPhase(c, id, phase).(rows := rows);
    forall a | a in c'.runs ensures Flagged(c', a) {
      assert Flagged(c, a);
    }
    forall a, b | a in c'.runs && b in c'.runs && a != b ensures !SameJob(c'.runs[a], c'.runs[b]) {
      assert !SameJob(c.runs[a], c.runs[b]);
    }
    forall a | a in c'.runs && Timely(aware, c', a) ensures Named(c', a) {
      if a != id {
        assert Timely(aware, c, a) && !SameJob(c.runs[a], r);
        if LockName(r.task) == LockName(c.runs[a].task) {
          LockNameInjective(r.task, c.runs[a].task);
        }
        RowKept(aware, c, a, LockName(r.task), r.node, if r.phase.Spawned? then 0 else r.phase.now);
      }
    }
  }

  lemma ClearInv(aware: set<string>, c: Cluster, id: nat, next: nat, c': Cluster)
    requires Inv(aware, c) && Next(aware, c, Clear(id, next), c')
    ensures Inv(aware, c')
  {
    forall a | a in c'.runs ensures Flagged(c', a) {
      assert Flagged(c, a) && !SameJob(c.runs[a], c.runs[id]);
    }
    forall a | a in c'.runs && Timely(aware, c', a) ensures Named(c', a) {
      assert Timely(aware, c, a);
    }
  }

  lemma CrashInv(aware: set<string>, c: Cluster, node: string, restarted: map<string, Slot>, c': Cluster)
    requires Inv(aware, c) && Next(aware, c, Crash(node, restarted), c')
    ensures Inv(aware, c')
  {
    forall a | a in c'.runs ensures Flagged(c', a) {
      assert Flagged(c, a);
    }
    forall a | a in c'.runs && Timely(aware, c', a) ensures Named(c', a) {
      assert Timely(aware, c, a);
    }
  }

  lemma WaitInv(aware: set<string>, c: Cluster, to: nat)
    requires Inv(aware, c) && to >= c.clock
    ensures Inv(aware, c.(clock := to))
  {
    var c' := c.(clock := to);
    forall a | a in c'.runs ensures Flagged(c', a) {
      assert Flagged(c, a);
    }
    forall a | a in c'.runs && Timely(aware, c', a) ensures Named(c', a) {
      assert Timely(aware, c, a);
    }
  }

  /** Every step keeps the invariant. */
  lemma NextInv(aware: set<string>, c: Cluster, step: Step, c': Cluster)
    requires Inv(aware, c) && Next(aware, c, step, c')
    ensures Inv(aware, c')
  {
    hide Inv;
    match step {
      case Wait(to) => WaitInv(aware, c, to);
      case Tick(node, now) => TickInv(aware, c, node, now, c');
      case ReadClock(id) => PhaseInv(aware, c, id, Timed(c.clock), c.rows);
      case Lock(id) => LockInv(aware, c, id, c');
      case LockError(id, written) =>
        TimesKept(aware, c, id);
        PhaseInv(aware, c, id, Closing(c.runs[id].phase.now), c'.rows);
      case StartUnlocked(id) =>
        TimesKept(aware, c, id);
        PhaseInv(aware, c, id, Executing(c.runs[id].phase.now), c.rows);
      case Unlock(id) =>
        TimesKept(aware, c, id);
        PhaseInv(aware, c, id, Closing(c.runs[id].phase.now), c'.rows);
      case UnlockError(id, written) =>
        TimesKept(aware, c, id);
        PhaseInv(aware, c, id, Closing(c.runs[id].phase.now), c'.rows);
      case FinishUnlocked(id) =>
        TimesKept(aware, c, id);
        PhaseInv(aware, c, id, Closing(c.runs[id].phase.now), c.rows);
      case Clear(id, next) => ClearInv(aware, c, id, next, c');
      case Crash(node, restarted) => CrashInv(aware, c, node, restarted, c');
    }
  }

  lemma TimesKept(aware: set<string>, c: Cluster, id: nat)
    requires Inv(aware, c) && id in c.runs && !c.runs[id].phase.Spawned?
    ensures c.runs[id].phase.now <= c.clock
  {}

  lemma LockInv(aware: set<string>, c: Cluster, id: nat, c': Cluster)
    requires Inv(aware, c) && Next(aware, c, Lock(id), c')
    ensures Inv(aware, c')
  {
    var r := c.runs[id];
    PhaseInv(aware, c, id, c'.runs[id].phase, c'.rows);
  }

  // ----- Every run of the cluster

  /** A sequence of states, each reached from the one before by the step between them. */
  ghost predicate Behaviour(aware: set<string>, cs: seq<Cluster>, steps: seq<Step>) {
    |cs| == |steps| + 1 && Init(cs[0]) &&
    forall i | 0 <= i < |steps| :: Next(aware, cs[i], steps[i], cs[i + 1])
  }

  lemma {:induction false} BehaviourInv(aware: set<string>, cs: seq<Cluster>, steps: seq<Step>, i: nat)
    requires Behaviour(aware, cs, steps) && i < |cs|
    ensures Inv(aware, cs[i])
  {
    hide Next, Inv;
    if i == 0 {
      InitInv(aware, cs[0]);
    } else {
      BehaviourInv(aware, cs, steps, i - 1);
      NextInv(aware, cs[i - 1], steps[i - 1], cs[i]);
    }
  }

  /**
   Whenever a node executes a cluster-aware task and the lock it took has not run out,
   the lock row names that node.
   */
  lemma HolderIsNamed(aware: set<string>, cs: seq<Cluster>, steps: seq<Step>, i: nat, id: nat)
    requires Behaviour(aware, cs, steps) && i < |cs|
    requires id in cs[i].runs && Timely(aware, cs[i], id)
    ensures Named(cs[i], id)
  {
    BehaviourInv(aware, cs, steps, i);
  }

  /** Two runs execute one cluster-aware task at once only if one of them has outlived its lock. */
  lemma OverlapNeedsALateRun(aware: set<string>, cs: seq<Cluster>, steps: seq<Step>, i: nat, a: nat, b: nat)
    requires Behaviour(aware, cs, steps) && i < |cs|
    requires a in cs[i].runs && b in cs[i].runs && a != b
    requires cs[i].runs[a].phase.Executing? && cs[i].runs[b].phase.Executing?
    requires cs[i].runs[a].task == cs[i].runs[b].task && cs[i].runs[a].task in aware
    ensures cs[i].clock > cs[i].runs[a].phase.now + LOCK_TTL || cs[i].clock > cs[i].runs[b].phase.now + LOCK_TTL
  {
    BehaviourInv(aware, cs, steps, i);
    assert !SameJob(cs[i].runs[a], cs[i].runs[b]);
    assert Timely(aware, cs[i], a) ==> Named(cs[i], a);
    assert Timely(aware, cs[i], b) ==> Named(cs[i], b);
  }

  /** A node never has two runs of one task, cluster-aware or not, and each is flagged. */
  lemma OneRunPerNode(aware: set<string>, cs: seq<Cluster>, steps: seq<Step>, i: nat, a: nat, b: nat)
    requires Behaviour(aware, cs, steps) && i < |cs|
    requires a in cs[i].runs && b in cs[i].runs && SameJob(cs[i].runs[a], cs[i].runs[b])
    ensures a == b && Flagged(cs[i], a)
  {
    BehaviourInv(aware, cs, steps, i);
    assert Flagged(cs[i], a);
  }

  /** Who a step acts for, when it acts for one run. */
  function Actor(c: Cluster, step: Step): Option<Run> {
    match step
    case Lock(id) => if id in c.runs then Some(c.runs[id]) else None
    case LockError(id, _) => if id in c.runs then Some(c.runs[id]) else None
    case Unlock(id) => if id in c.runs then Some(c.runs[id]) else None
    case UnlockError(id, _) => if id in c.runs then Some(c.runs[id]) else None
    case _ => None
  }

  /**
   A row is changed or removed only by its holder, or by a node that takes it over after
   it ran out. In particular no release removes another holder's row.
   */
  lemma RowChangesAreOwnOrLate(aware: set<string>, cs: seq<Cluster>, steps: seq<Step>, i: nat, name: string)
    requires Behaviour(aware, cs, steps) && i < |steps| && name in cs[i].rows
    requires name !in cs[i + 1].rows || cs[i + 1].rows[name] != cs[i].rows[name]
    ensures var row, actor := cs[i].rows[name], Actor(cs[i], steps[i]);
            actor.Some? && LockName(actor.value.task) == name &&
            (actor.value.node == row.holder ||
             ((steps[i].Lock? || steps[i].LockError?) &&
              (row.expires.None? || row.expires.value < cs[i].clock) &&
              name in cs[i + 1].rows && cs[i + 1].rows[name].holder == actor.value.node))
  {
    BehaviourInv(aware, cs, steps, i);
    assert Next(aware, cs[i], steps[i], cs[i + 1]);
  }

  // ----- Which tasks are run

  /** Only a tick makes new runs, and each belongs to a task that was enabled, idle and due in that step. */
  lemma SpawnedWasDue(aware: set<string>, c: Cluster, step: Step, c': Cluster, id: nat)
    requires Next(aware, c, step, c') && IsNew(c, c', id)
    ensures var r := c'.runs[id];
            r.phase.Spawned? && step.Tick? && step.node == r.node && step.now <= c.clock &&
            r.node in c.slots && r.task in c.slots[r.node] &&
            var slot := c.slots[r.node][r.task];
            slot.enabled && !slot.running && slot.next <= step.now && c'.slots[r.node][r.task].running
  {
    hide HasNew, Due, MarkDue;
    if step.Tick? {
      DueIff(c.slots[step.node], step.now);
    }
  }

  /** The node has no entry of the task that is enabled. */
  predicate Disabled(slots: map<string, map<string, Slot>>, node: string, task: string) {
    node in slots && task in slots[node] ==> !slots[node][task].enabled
  }

  predicate HasRun(c: Cluster, node: string, task: string) {
    exists id :: id in c.runs && c.runs[id].node == node && c.runs[id].task == task
  }

  /** A restart leaves the task disabled. */
  predicate KeepsDisabled(step: Step, node: string, task: string) {
    step.Crash? && step.node == node && task in step.restarted ==> !step.restarted[task].enabled
  }

  lemma DisabledStep(aware: set<string>, c: Cluster, step: Step, c': Cluster, node: string, task: string)
    requires Next(aware, c, step, c') && Disabled(c.slots, node, task) && !HasRun(c, node, task) && KeepsDisabled(step, node, task)
    ensures Disabled(c'.slots, node, task) && !HasRun(c', node, task)
  {
    hide HasNew, Due, MarkDue;
    if step.Tick? {
      DueIff(c.slots[step.node], step.now);
    }
    forall id | id in c'.runs ensures c'.runs[id].node != node || c'.runs[id].task != task {
      if IsNew(c, c', id) {
        SpawnedWasDue(aware, c, step, c', id);
      } else {
        assert c.runs[id].node != node || c.runs[id].task != task;
      }
    }
  }

  /** A task that is disabled at first and after every restart never has a run on that node. */
  lemma {:induction false} DisabledNeverRuns(aware: set<string>, cs: seq<Cluster>, steps: seq<Step>, i: nat, node: string, task: string)
    requires Behaviour(aware, cs, steps) && i < |cs| && Disabled(cs[0].slots, node, task)
    requires forall j | 0 <= j < i :: KeepsDisabled(steps[j], node, task)
    ensures Disabled(cs[i].slots, node, task) && !HasRun(cs[i], node, task)
  {
    hide Next, Disabled, HasRun, KeepsDisabled;
    if i > 0 {
      DisabledNeverRuns(aware, cs, steps, i - 1, node, task);
      DisabledStep(aware, cs[i - 1], steps[i - 1], cs[i], node, task);
    } else {
      NoRunAtFirst(cs[0], node, task);
    }
  }

  lemma NoRunAtFirst(c: Cluster, node: string, task: string)
    requires Init(c)
    ensures !HasRun(c, node, task)
  {}

  // ----- Exactly when a run can be joined

  /** Another node can take the lock of an executing run exactly when the run has outlived it. */
  lemma CanTakeIffLate(aware: set<string>, c: Cluster, a: nat, n: string)
    requires a in c.runs && c.runs[a].phase.Executing? && c.runs[a].task in aware && Named(c, a) && n != c.runs[a].node
    ensures CanTake(c.rows, LockName(c.runs[a].task), n, c.clock) <==> !Timely(aware, c, a)
  {}

  lemma {:induction false} FreshId(ids: set<nat>) returns (id: nat)
    ensures forall i | i in ids :: i < id
  {
    if ids == {} {
      id := 0;
    } else {
      var i :| i in ids;
      var above := FreshId(ids - {i});
      assert forall j | j in ids :: j == i || j in ids - {i};
      id := if i < above then above else i + 1;
    }
  }

  /** A new run more, and every task that had one still has one. */
  lemma HasNewStill(c: Cluster, c1: Cluster, r: Run, id: nat, task: string)
    requires id !in c.runs && id !in c1.runs && (HasNew(c, c1, task) || r.task == task)
    ensures HasNew(c, c1.(runs := c1.runs[id := r]), task)
  {
    var c' := c1.(runs := c1.runs[id := r]);
    if r.task == task {
      assert IsNew(c, c', id) && c'.runs[id].task == task;
    } else {
      var k :| IsNew(c, c1, k) && c1.runs[k].task == task;
      assert IsNew(c, c', k) && c'.runs[k].task == task;
    }
  }

  lemma SpawnOne(c: Cluster, c1: Cluster, node: string, tasks: set<string>, t: string, id: nat)
    requires t in tasks && id !in c.runs && id !in c1.runs && Spawns(c, c1, node, tasks - {t})
    ensures Spawns(c, c1.(runs := c1.runs[id := Run(node, t, Spawned)]), node, tasks)
  {
    hide HasNew;
    var c' := c1.(runs := c1.runs[id := Run(node, t, Spawned)]);
    assert forall k :: IsNew(c, c', k) <==> k == id || IsNew(c, c1, k);
    forall u | u in tasks ensures HasNew(c, c', u) {
      HasNewStill(c, c1, Run(node, t, Spawned), id, u);
    }
  }

  /** The due tasks of a node can always be spawned under fresh ids. */
  lemma {:induction false} SpawnsExist(c: Cluster, node: string, tasks: set<string>) returns (c': Cluster)
    ensures c' == c.(runs := c'.runs) && Spawns(c, c', node, tasks)
    decreases |tasks|
  {
    if tasks == {} {
      c' := c;
    } else {
      var t :| t in tasks;
      var c1 := SpawnsExist(c, node, tasks - {t});
      var id := FreshId(c1.runs.Keys);
      assert id !in c1.runs && id !in c.runs;
      hide Spawns;
      SpawnOne(c, c1, node, tasks, t, id);
      c' := c1.(runs := c1.runs[id := Run(node, t, Spawned)]);
    }
  }

  /** One behaviour continues another. */
  ghost predicate Continues(aware: set<string>, cs: seq<Cluster>, steps: seq<Step>, cs': seq<Cluster>, steps': seq<Step>) {
    Behaviour(aware, cs', steps') && 0 < |cs| <= |cs'| && cs'[..|cs|] == cs && steps'[..|cs| - 1] == steps
  }

  lemma Then(aware: set<string>, cs: seq<Cluster>, steps: seq<Step>, now: seq<Cluster>, done: seq<Step>, step: Step, c: Cluster)
    returns (now': seq<Cluster>, done': seq<Step>)
    requires Continues(aware, cs, steps, now, done) && Next(aware, now[|now| - 1], step, c)
    ensures Continues(aware, cs, steps, now', done') && now'[|now'| - 1] == c
  {
    hide Next, Init;
    now', done' := now + [c], done + [step];
  }

  lemma ContinuesItself(aware: set<string>, cs: seq<Cluster>, steps: seq<Step>)
    requires Behaviour(aware, cs, steps)
    ensures Continues(aware, cs, steps, cs, steps)
  {
    hide Next, Init;
  }

  /** A task of a node that is due, and whose lock the node can take. */
  predicate CanStart(c: Cluster, n: string, task: string) {
    n in c.slots && task in c.slots[n] && IsDue(c.slots[n][task], c.clock) && CanTake(c.rows, LockName(task), n, c.clock)
  }

  /** The node executes the task since this moment, beside everything that ran before. */
  predicate Started(c: Cluster, c': Cluster, n: string, task: string, b: nat) {
    c'.clock == c.clock && c'.rows == c.rows[LockName(task) := Row(n, c.clock, Some(c.clock + LOCK_TTL))] &&
    (forall id | id in c.runs :: id in c'.runs && c'.runs[id] == c.runs[id]) &&
    (forall m | m in c.slots && m != n :: m in c'.slots && c'.slots[m] == c.slots[m]) &&
    b in c'.runs && b !in c.runs && c'.runs[b] == Run(n, task, Executing(c.clock))
  }

  /** Such a task gets started: the node ticks, and the run reads the clock and takes the lock. */
  lemma StartRun(aware: set<string>, cs: seq<Cluster>, steps: seq<Step>, now: seq<Cluster>, done: seq<Step>, n: string, task: string)
    returns (now': seq<Cluster>, done': seq<Step>, b: nat)
    requires Continues(aware, cs, steps, now, done) && task in aware && CanStart(now[|now| - 1], n, task)
    ensures Continues(aware, cs, steps, now', done') && Started(now[|now| - 1], now'[|now'| - 1], n, task, b)
  {
    assert |now| > 0;
    hide Continues, CanStart, Started, Due, MarkDue;
    var c := now[|now| - 1];
    var c1, c2, c3;
    b, c1, c2, c3 := ThreeSteps(aware, c, n, task);
    hide Next;
    now', done' := Then(aware, cs, steps, now, done, Step.Tick(n, c.clock), c1);
    now', done' := Then(aware, cs, steps, now', done', ReadClock(b), c2);
    now', done' := Then(aware, cs, steps, now', done', Lock(b), c3);
  }

  lemma ThreeSteps(aware: set<string>, c: Cluster, n: string, task: string) returns (b: nat, c1: Cluster, c2: Cluster, c3: Cluster)
    requires task in aware && CanStart(c, n, task)
    ensures Next(aware, c, Step.Tick(n, c.clock), c1) && Next(aware, c1, ReadClock(b), c2) && Next(aware, c2, Lock(b), c3)
    ensures Started(c, c3, n, task, b)
  {
    hide Next, Started, MarkDue;
    var due := Due(c.slots[n], c.clock);
    assert task in due;
    var spawned := SpawnsExist(c, n, due);
    assert HasNew(c, spawned, task);
    b :| IsNew(c, spawned, b) && spawned.runs[b].task == task;
    c1 := spawned.(slots := c.slots[n := MarkDue(c.slots[n], c.clock)]);
    Ticked(aware, c, spawned, n, c1);
    c2, c3 := ReadAndLock(aware, c, c1, n, task, b);
  }

  lemma ReadAndLock(aware: set<string>, c: Cluster, c1: Cluster, n: string, task: string, b: nat) returns (c2: Cluster, c3: Cluster)
    requires task in aware && CanTake(c.rows, LockName(task), n, c.clock)
    requires c1.clock == c.clock && c1.rows == c.rows
    requires forall id | id in c.runs :: id in c1.runs && c1.runs[id] == c.runs[id]
    requires forall m | m in c.slots && m != n :: m in c1.slots && c1.slots[m] == c.slots[m]
    requires b in c1.runs && b !in c.runs && c1.runs[b] == Run(n, task, Spawned)
    ensures Next(aware, c1, ReadClock(b), c2) && Next(aware, c2, Lock(b), c3) && Started(c, c3, n, task, b)
  {
    c2 := WithPhase(c1, b, Timed(c.clock));
    c3 := WithPhase(c2, b, Executing(c.clock)).(rows := Acquire(c.rows, LockName(task), n, c.clock));
  }

  lemma Ticked(aware: set<string>, c: Cluster, spawned: Cluster, n: string, c1: Cluster)
    requires n in c.slots && spawned == c.(runs := spawned.runs) && Spawns(c, spawned, n, Due(c.slots[n], c.clock))
    requires c1 == spawned.(slots := c.slots[n := MarkDue(c.slots[n], c.clock)])
    ensures Next(aware, c, Step.Tick(n, c.clock), c1)
  {}

  /** In the last state, two nodes execute the task of run `a` at once: `a` itself and run `b` of node `n`. */
  predicate Joined(c: Cluster, a: nat, n: string, b: nat) {
    a in c.runs && b in c.runs && c.runs[a].phase.Executing? && c.runs[b].phase.Executing? &&
    c.runs[b].node == n && c.runs[b].task == c.runs[a].task
  }

  /** The run is executing a cluster-aware task, its own row is still there, and the task is due and idle on another node. */
  predicate Exposed(aware: set<string>, c: Cluster, a: nat, n: string) {
    a in c.runs && c.runs[a].phase.Executing? && c.runs[a].task in aware && Named(c, a) && n != c.runs[a].node &&
    n in c.slots && c.runs[a].task in c.slots[n] && IsDue(c.slots[n][c.runs[a].task], c.clock)
  }

  /** What holds of the runs of a node and task that had none at time `t`: each started no earlier. */
  predicate NoneBefore(c: Cluster, n: string, task: string, t: nat) {
    c.clock >= t &&
    forall id | id in c.runs && c.runs[id].node == n && c.runs[id].task == task && !c.runs[id].phase.Spawned? :: c.runs[id].phase.now >= t
  }

  lemma NoneBeforeStep(aware: set<string>, c: Cluster, step: Step, c': Cluster, n: string, task: string, t: nat)
    requires Next(aware, c, step, c') && NoneBefore(c, n, task, t)
    ensures NoneBefore(c', n, task, t)
  {}

  lemma {:induction false} NoneBeforeLater(aware: set<string>, cs: seq<Cluster>, steps: seq<Step>, i: nat, j: nat, n: string, task: string, t: nat)
    requires Behaviour(aware, cs, steps) && i <= j < |cs| && NoneBefore(cs[i], n, task, t)
    ensures NoneBefore(cs[j], n, task, t)
    decreases j
  {
    hide Next, NoneBefore;
    if i < j {
      NoneBeforeLater(aware, cs, steps, i, j - 1, n, task, t);
      NoneBeforeStep(aware, cs[j - 1], steps[j - 1], cs[j], n, task, t);
    }
  }

  /** A continuation without waiting, in which the run is as it was and another node executes its task as well. */
  ghost predicate JoinsNow(aware: set<string>, cs: seq<Cluster>, steps: seq<Step>, cs': seq<Cluster>, steps': seq<Step>,
                           a: nat, n: string, b: nat) {
    Continues(aware, cs, steps, cs', steps') &&
    var c, c' := cs[|cs| - 1], cs'[|cs'| - 1];
    c'.clock == c.clock && a in c.runs && a in c'.runs && c'.runs[a] == c.runs[a] && Joined(c', a, n, b)
  }

  /** There is none as long as the run's lock lasts. */
  lemma TimelyIsNotJoined(aware: set<string>, cs: seq<Cluster>, steps: seq<Step>, cs': seq<Cluster>, steps': seq<Step>,
                          a: nat, n: string, b: nat)
    requires |cs| > 0 && Exposed(aware, cs[|cs| - 1], a, n) && Timely(aware, cs[|cs| - 1], a)
    ensures !JoinsNow(aware, cs, steps, cs', steps', a, n, b)
  {
    if JoinsNow(aware, cs, steps, cs', steps', a, n, b) {
      hide Next, Init;
      var i, j := |cs| - 1, |cs'| - 1;
      assert cs'[i] == cs[i];
      BehaviourInv(aware, cs', steps', i);
      BehaviourInv(aware, cs', steps', j);
      NoneYet(aware, cs[i], a, n);
      NoneBeforeLater(aware, cs', steps', i, j, n, cs[i].runs[a].task, cs[i].clock);
      NotBothNamed(aware, cs'[j], a, n, b);
    }
  }

  /** A node on which a task is idle has no run of it. */
  lemma NoneYet(aware: set<string>, c: Cluster, a: nat, n: string)
    requires Inv(aware, c) && Exposed(aware, c, a, n)
    ensures NoneBefore(c, n, c.runs[a].task, c.clock)
  {
    forall id | id in c.runs ensures Flagged(c, id) {}
  }

  lemma NotBothNamed(aware: set<string>, c: Cluster, a: nat, n: string, b: nat)
    requires Inv(aware, c) && a in c.runs && Timely(aware, c, a) && n != c.runs[a].node
    requires NoneBefore(c, n, c.runs[a].task, c.clock)
    ensures !Joined(c, a, n, b)
  {
    if Joined(c, a, n, b) {
      assert Timely(aware, c, b) && Named(c, a) && Named(c, b);
    }
  }

  /**
   From any reachable state: another node on which the task is due can come to execute it
   at this moment, beside the run that already does, exactly when that run has outlived
   its lock.
   */
  lemma CanBeJoinedIff(aware: set<string>, cs: seq<Cluster>, steps: seq<Step>, a: nat, n: string)
    requires Behaviour(aware, cs, steps) && Exposed(aware, cs[|cs| - 1], a, n)
    ensures (exists cs', steps', b :: JoinsNow(aware, cs, steps, cs', steps', a, n, b)) <==> !Timely(aware, cs[|cs| - 1], a)
  {
    var c := cs[|cs| - 1];
    if Timely(aware, c, a) {
      forall cs', steps', b ensures !JoinsNow(aware, cs, steps, cs', steps', a, n, b) {
        TimelyIsNotJoined(aware, cs, steps, cs', steps', a, n, b);
      }
    } else {
      CanTakeIffLate(aware, c, a, n);
      ContinuesItself(aware, cs, steps);
      hide Behaviour;
      var cs', steps', b := StartRun(aware, cs, steps, cs, steps, n, c.runs[a].task);
      assert JoinsNow(aware, cs, steps, cs', steps', a, n, b);
    }
  }

  function Idle(nodes: set<string>, task: string): Cluster {
    Cluster(0, map[], map n | n in nodes :: map[task := Slot(true, 0, false)], map[])
  }

  /**
   A run does outlive its lock: a task that waits an hour before its retry lasts longer than
   the five minutes, and one nanosecond after them another node executes it as well.
   */
  lemma LateRunCanBeJoined(task: string, m: string, n: string)
    returns (cs: seq<Cluster>, steps: seq<Step>, a: nat, b: nat)
    requires m != n
    ensures Behaviour({task}, cs, steps)
    ensures var c := cs[|cs| - 1];
            c.clock == LOCK_TTL + 1 && a in c.runs && b in c.runs &&
            c.runs[a] == Run(m, task, Executing(0)) && c.runs[b] == Run(n, task, Executing(c.clock))
  {
    var c0 := Idle({m, n}, task);
    ContinuesItself({task}, [c0], []);
    cs, steps, a := StartRun({task}, [c0], [], [c0], [], m, task);
    var c := cs[|cs| - 1];
    cs, steps := Then({task}, [c0], [], cs, steps, Wait(LOCK_TTL + 1), c.(clock := LOCK_TTL + 1));
    cs, steps, b := StartRun({task}, [c0], [], cs, steps, n, task);
  }
}
