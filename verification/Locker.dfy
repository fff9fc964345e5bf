/**
 The lock of src/cache/lock.go on top of the cache: a key that holds the owner's node id
 until its ttl runs out. Releasing it is a read followed by a separate deletion.
 */
module Locker {
  import opened Results
  import opened MemoryCache

  function LockKey(name: string): string {
    "lock:" + name
  }

  class Lock {
    const cache: Cache
    const nodeID: string

    constructor (cache: Cache, nodeID: string)
      ensures this.cache == cache && this.nodeID == nodeID
    {
      this.cache, this.nodeID := cache, nodeID;
    }

    method Acquire(name: string, ttl: int, now: int) returns (won: bool)
      modifies cache
      ensures won == Lookup(old(cache.entries), LockKey(name), now).None?
      ensures won ==> cache.entries == old(cache.entries)[LockKey(name) := NewEntry(nodeID, ttl, now)]
      ensures !won ==> cache.entries == old(cache.entries)
    {
      won := cache.SetNX(LockKey(name), nodeID, ttl, now);
    }

    /** Undisturbed, it deletes the key exactly when this node's claim is in it and live. */
    method Release(name: string, now: int)
      modifies cache
      ensures cache.entries ==
              if Lookup(old(cache.entries), LockKey(name), now) == Some(nodeID) then old(cache.entries) - {LockKey(name)}
              else old(cache.entries)
    {
      var value := cache.Get(LockKey(name), now);
      if value.None? || value.value != nodeID {
        return;
      }
      cache.Delete([LockKey(name)]);
    }
  }

  // ----- Any number of processes at once

  /** Where a process is in WithLock, with the expiry of the claim it won. */
  datatype Phase =
    | Idle
    | Running(name: string, claim: Option<int>)
    | Checking(name: string, claim: Option<int>)
    | Deleting(name: string, claim: Option<int>)

  datatype Process = Process(node: string, phase: Phase)

  datatype World = World(entries: Entries, now: int, procs: map<nat, Process>)

  datatype Step =
    | Wait(time: nat)
    | Acquire(p: nat, lock: string, ttl: int)
    | Finish(p: nat)
    | Check(p: nat)
    | Drop(p: nat)
    | Crash(p: nat)
    | Janitor

  function Goes(w: World, p: nat, phase: Phase): World
    requires p in w.procs
  {
    w.(procs := w.procs[p := w.procs[p].(phase := phase)])
  }

  predicate Next(w: World, step: Step, w': World) {
    match step
    case Wait(time) => w' == w.(now := w.now + time)
    case Acquire(p, lock, ttl) =>
      p in w.procs && w.procs[p].phase == Idle &&
      var e := NewEntry(w.procs[p].node, ttl, w.now);
      w' == if Lookup(w.entries, LockKey(lock), w.now).Some? then w
            else Goes(w, p, Running(lock, e.expires)).(entries := w.entries[LockKey(lock) := e])
    case Finish(p) =>
      p in w.procs && w.procs[p].phase.Running? &&
      w' == Goes(w, p, Checking(w.procs[p].phase.name, w.procs[p].phase.claim))
    case Check(p) =>
      p in w.procs && w.procs[p].phase.Checking? &&
      var ph := w.procs[p].phase;
      w' == Goes(w, p, if Lookup(w.entries, LockKey(ph.name), w.now) == Some(w.procs[p].node) then Deleting(ph.name, ph.claim) else Idle)
    case Drop(p) =>
      p in w.procs && w.procs[p].phase.Deleting? &&
      w' == Goes(w, p, Idle).(entries := w.entries - {LockKey(w.procs[p].phase.name)})
    case Crash(p) => p in w.procs && w' == Goes(w, p, Idle)
    case Janitor => w' == w.(entries := MemoryCache.Apply(w.entries, Sweep(w.now)))
  }

  // ----- Mutual exclusion

  /** The process won this lock, has not finished releasing it, and its ttl has not run out. */
  predicate Holds(w: World, p: nat, name: string) {
    p in w.procs && w.procs[p].phase != Idle && w.procs[p].phase.name == name &&
    (w.procs[p].phase.claim.Some? ==> w.now <= w.procs[p].phase.claim.value)
  }

  /** The cache holds the claim of every holder, and a lock has one holder at most. */
  ghost predicate Inv(w: World) {
    (forall p, name | Holds(w, p, name) ::
      LockKey(name) in w.entries && w.entries[LockKey(name)] == Entry(w.procs[p].node, w.procs[p].phase.claim)) &&
    forall p, q, name | Holds(w, p, name) && Holds(w, q, name) :: p == q
  }

  /** A process deletes the key only while its own claim lasts. */
  predicate Timely(w: World, step: Step) {
    step.Drop? && step.p in w.procs && w.procs[step.p].phase.Deleting? ==> Holds(w, step.p, w.procs[step.p].phase.name)
  }

  lemma KeysDiffer(a: string, b: string)
    ensures LockKey(a) == LockKey(b) <==> a == b
  {
    assert a == LockKey(a)[5..] && b == LockKey(b)[5..];
  }

  lemma AcquireInv(w: World, p: nat, lock: string, ttl: int, w': World)
    requires Inv(w) && Next(w, Acquire(p, lock, ttl), w')
    ensures Inv(w')
  {
    hide LockKey;
    forall q, name | Holds(w', q, name)
      ensures LockKey(name) in w'.entries && w'.entries[LockKey(name)] == Entry(w'.procs[q].node, w'.procs[q].phase.claim)
      ensures forall r | Holds(w', r, name) :: q == r
    {
      KeysDiffer(name, lock);
      forall r | Holds(w', r, name) ensures q == r {
        var before := (Holds(w, q, name), Holds(w, r, name));
      }
    }
  }

  lemma DropInv(w: World, p: nat, w': World)
    requires Inv(w) && Next(w, Drop(p), w') && Timely(w, Drop(p))
    ensures Inv(w')
  {
    hide LockKey;
    forall q, name | Holds(w', q, name)
      ensures LockKey(name) in w'.entries && w'.entries[LockKey(name)] == Entry(w'.procs[q].node, w'.procs[q].phase.claim)
      ensures forall r | Holds(w', r, name) :: q == r
    {
      KeysDiffer(name, w.procs[p].phase.name);
      assert Holds(w, q, name);
      forall r | Holds(w', r, name) ensures q == r {
        assert Holds(w, r, name);
      }
    }
  }

  /** Any other step makes no new holder and removes no live entry. */
  lemma OtherInv(w: World, step: Step, w': World)
    requires Inv(w) && Next(w, step, w') && !step.Acquire? && !step.Drop?
    ensures Inv(w')
  {
    hide LockKey;
    forall p, name | Holds(w', p, name)
      ensures Holds(w, p, name)
      ensures LockKey(name) in w'.entries && w'.entries[LockKey(name)] == Entry(w'.procs[p].node, w'.procs[p].phase.claim)
    {
      assert Holds(w, p, name);
    }
  }

  lemma NextInv(w: World, step: Step, w': World)
    requires Inv(w) && Next(w, step, w') && Timely(w, step)
    ensures Inv(w')
  {
    hide Inv, Next, Timely;
    match step {
      case Acquire(p, lock, ttl) => AcquireInv(w, p, lock, ttl, w');
      case Drop(p) => DropInv(w, p, w');
      case _ => OtherInv(w, step, w');
    }
  }

  predicate Behaviour(ws: seq<World>, steps: seq<Step>) {
    |ws| == |steps| + 1 && (forall p | p in ws[0].procs :: ws[0].procs[p].phase == Idle) &&
    forall i | 0 <= i < |steps| :: Next(ws[i], steps[i], ws[i + 1])
  }

  lemma {:induction false} BehaviourInv(ws: seq<World>, steps: seq<Step>, i: nat)
    requires Behaviour(ws, steps) && i < |ws| && forall j | 0 <= j < i :: Timely(ws[j], steps[j])
    ensures Inv(ws[i])
  {
    hide Next, Timely;
    if i > 0 {
      BehaviourInv(ws, steps, i - 1);
      NextInv(ws[i - 1], steps[i - 1], ws[i]);
    }
  }

  /**
   If every release deletes within its claim, two processes run under one lock only when
   one of them has outlived its ttl.
   */
  lemma SectionsExclude(ws: seq<World>, steps: seq<Step>, i: nat, p: nat, q: nat)
    requires Behaviour(ws, steps) && i < |ws| && forall j | 0 <= j < i :: Timely(ws[j], steps[j])
    requires p in ws[i].procs && q in ws[i].procs && p != q
    requires ws[i].procs[p].phase.Running? && ws[i].procs[q].phase.Running?
    requires ws[i].procs[p].phase.name == ws[i].procs[q].phase.name
    ensures !Holds(ws[i], p, ws[i].procs[p].phase.name) || !Holds(ws[i], q, ws[i].procs[q].phase.name)
  {
    BehaviourInv(ws, steps, i);
  }

  /** A deletion takes the lock from another process exactly when that process holds it, whoever deletes. */
  lemma DropKeepsInvariantIff(w: World, p: nat, w': World)
    requires Inv(w) && Next(w, Drop(p), w')
    ensures Inv(w') <==> forall q | q != p :: !Holds(w, q, w.procs[p].phase.name)
  {
    var name := w.procs[p].phase.name;
    if q: nat :| q != p && Holds(w, q, name) {
      assert Holds(w', q, name);
      assert LockKey(name) !in w'.entries;
    } else {
      forall q, n | Holds(w', q, n) ensures Holds(w, q, n) && LockKey(n) in w'.entries {
        assert Holds(w, q, n);
        KeysDiffer(n, name);
      }
    }
  }

  /** A deletion finds no other process holding the lock. */
  ghost predicate Spares(w: World, step: Step) {
    step.Drop? && step.p in w.procs && w.procs[step.p].phase.Deleting? ==>
      forall q | q != step.p :: !Holds(w, q, w.procs[step.p].phase.name)
  }

  /** Of all steps only a deletion that finds another holder breaks the invariant. */
  lemma StepKeepsInvIff(w: World, step: Step, w': World)
    requires Inv(w) && Next(w, step, w')
    ensures Inv(w') <==> Spares(w, step)
    ensures Timely(w, step) ==> Spares(w, step)
  {
    hide Inv, Holds;
    if step.Drop? {
      DropKeepsInvariantIff(w, step.p, w');
      if Timely(w, step) {
        OneHolder(w, step.p);
      }
    } else {
      NextInv(w, step, w');
    }
  }

  lemma OneHolder(w: World, p: nat)
    requires Inv(w) && p in w.procs && w.procs[p].phase.Deleting? && Holds(w, p, w.procs[p].phase.name)
    ensures Spares(w, Drop(p))
  {}

  /**
   In a behaviour every lock always has one holder at most, with its claim in the cache,
   exactly when no deletion ever finds another holder.
   */
  lemma AlwaysOneHolderIff(ws: seq<World>, steps: seq<Step>)
    requires Behaviour(ws, steps)
    ensures (forall i | 0 <= i < |ws| :: Inv(ws[i])) <==> forall j | 0 <= j < |steps| :: Spares(ws[j], steps[j])
  {
    hide Next, Inv, Spares;
    if forall i | 0 <= i < |ws| :: Inv(ws[i]) {
      forall j | 0 <= j < |steps| ensures Spares(ws[j], steps[j]) {
        StepKeepsInvIff(ws[j], steps[j], ws[j + 1]);
      }
    }
    if forall j | 0 <= j < |steps| :: Spares(ws[j], steps[j]) {
      forall i | 0 <= i < |ws| ensures Inv(ws[i]) {
        SparedInv(ws, steps, i);
      }
    }
  }

  lemma {:induction false} SparedInv(ws: seq<World>, steps: seq<Step>, i: nat)
    requires Behaviour(ws, steps) && i < |ws| && forall j | 0 <= j < i :: Spares(ws[j], steps[j])
    ensures Inv(ws[i])
  {
    hide Next, Spares;
    if i > 0 {
      SparedInv(ws, steps, i - 1);
      StepKeepsInvIff(ws[i - 1], steps[i - 1], ws[i]);
    }
  }

  // ----- What a release could test

  /** In the cache the deleting process finds nothing live, or its own claim with its own expiry. */
  predicate Guard(w: World, p: nat)
    requires p in w.procs && w.procs[p].phase.Deleting?
  {
    var key := LockKey(w.procs[p].phase.name);
    Lookup(w.entries, key, w.now).None? || w.entries[key] == Entry(w.procs[p].node, w.procs[p].phase.claim)
  }

  /** The worlds the process cannot tell from this one: the same cache, time and process. */
  predicate Alike(w: World, w': World, p: nat) {
    w'.entries == w.entries && w'.now == w.now && p in w.procs && p in w'.procs && w'.procs[p] == w.procs[p]
  }

  lemma GuardSpares(w: World, p: nat)
    requires Inv(w) && p in w.procs && w.procs[p].phase.Deleting? && Guard(w, p)
    ensures Spares(w, Drop(p))
  {
    var name := w.procs[p].phase.name;
    forall q | q != p ensures !Holds(w, q, name) {
      if Holds(w, q, name) {
        assert Holds(w, p, name);
      }
    }
  }

  /** Tested at the moment of the deletion this is enough, and no weaker test of the same data is. */
  lemma GuardIff(w: World, p: nat)
    requires Inv(w) && p in w.procs && w.procs[p].phase.Deleting?
    ensures Guard(w, p) <==> forall w' | Alike(w, w', p) && Inv(w') :: Spares(w', Drop(p))
  {
    if Guard(w, p) {
      forall w' | Alike(w, w', p) && Inv(w') ensures Spares(w', Drop(p)) {
        GuardSpares(w', p);
      }
    } else {
      var name := w.procs[p].phase.name;
      var e := w.entries[LockKey(name)];
      var q := p + 1;
      var w' := w.(procs := map[p := w.procs[p], q := Process(e.value, Running(name, e.expires))]);
      assert Alike(w, w', p);
      assert Holds(w', q, name);
      assert !Holds(w, p, name);
      assert !Holds(w', p, name);
      assert Inv(w') && !Spares(w', Drop(p));
    }
  }

  /** Releases that test it keep one holder per lock in every behaviour. */
  lemma GuardedReleasesAreSafe(ws: seq<World>, steps: seq<Step>, i: nat)
    requires Behaviour(ws, steps) && i < |ws|
    requires forall j | 0 <= j < i && steps[j].Drop? && steps[j].p in ws[j].procs && ws[j].procs[steps[j].p].phase.Deleting? ::
               Guard(ws[j], steps[j].p)
    ensures Inv(ws[i])
  {
    hide Next, Guard;
    if i > 0 {
      GuardedReleasesAreSafe(ws, steps, i - 1);
      var w, step := ws[i - 1], steps[i - 1];
      if step.Drop? && step.p in w.procs && w.procs[step.p].phase.Deleting? {
        GuardSpares(w, step.p);
      }
      StepKeepsInvIff(w, step, ws[i]);
    }
  }

  lemma Then(ws: seq<World>, steps: seq<Step>, step: Step, w: World) returns (ws': seq<World>, steps': seq<Step>)
    requires Behaviour(ws, steps) && Next(ws[|ws| - 1], step, w)
    ensures Behaviour(ws', steps') && |ws'| == |ws| + 1 && ws'[|ws|] == w
  {
    hide Next;
    ws', steps' := ws + [w], steps + [step];
  }

  /** Process 0 takes a lock, finishes, finds its claim in the cache, and is held up until the claim has run out. */
  lemma HeldUpBeforeDeleting(lock: string, a: string, b: string, c: string, ttl: nat)
    returns (ws: seq<World>, steps: seq<Step>)
    requires ttl > 0
    ensures Behaviour(ws, steps) && |ws| == 5
    ensures ws[4] == World(map[LockKey(lock) := Entry(a, Some(ttl))], ttl + 1,
                           map[0 := Process(a, Deleting(lock, Some(ttl))), 1 := Process(b, Idle), 2 := Process(c, Idle)])
  {
    hide LockKey;
    var idle := map[0 := Process(a, Idle), 1 := Process(b, Idle), 2 := Process(c, Idle)];
    var claim := Some(ttl);
    var w := World(map[], 0, idle);
    ws, steps := [w], [];
    assert Behaviour(ws, steps);
    hide Behaviour;
    w := World(map[LockKey(lock) := Entry(a, claim)], 0, idle[0 := Process(a, Running(lock, claim))]);
    ws, steps := Then(ws, steps, Acquire(0, lock, ttl), w);
    w := w.(procs := idle[0 := Process(a, Checking(lock, claim))]);
    ws, steps := Then(ws, steps, Finish(0), w);
    w := w.(procs := idle[0 := Process(a, Deleting(lock, claim))]);
    ws, steps := Then(ws, steps, Check(0), w);
    ws, steps := Then(ws, steps, Wait(ttl + 1), w.(now := ttl + 1));
  }

  /**
   Without that condition the lock fails: a claim that runs out between the read and the
   deletion of its release lets two others run at once, both within their ttl.
   */
  lemma LateDeleteLetsTwoIn(lock: string, a: string, b: string, c: string, ttl: nat)
    returns (ws: seq<World>, steps: seq<Step>)
    requires ttl > 0
    ensures Behaviour(ws, steps) && |ws| == 8
    ensures Holds(ws[7], 1, lock) && Holds(ws[7], 2, lock)
    ensures ws[7].procs[1].phase.Running? && ws[7].procs[2].phase.Running?
  {
    ws, steps := HeldUpBeforeDeleting(lock, a, b, c, ttl);
    hide LockKey, Behaviour;
    var key, late := LockKey(lock), ttl + 1;
    var claim := Some(late + ttl);
    var w := ws[4];
    w := World(map[key := Entry(b, claim)], late, w.procs[1 := Process(b, Running(lock, claim))]);
    ws, steps := Then(ws, steps, Acquire(1, lock, ttl), w);
    w := w.(entries := map[], procs := w.procs[0 := Process(a, Idle)]);
    ws, steps := Then(ws, steps, Drop(0), w);
    w := World(map[key := Entry(c, claim)], late, w.procs[2 := Process(c, Running(lock, claim))]);
    ws, steps := Then(ws, steps, Acquire(2, lock, ttl), w);
  }
}
