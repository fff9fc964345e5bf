/** The task bookkeeping of one node, in src/scheduler/scheduler.go. */
module Scheduler {
  import opened Results
  import opened Cron

  datatype Task = Task(name: string, clusterAware: bool)

  /** What one entry says: whether it is enabled, when it is due, whether it is running. */
  datatype Slot = Slot(enabled: bool, next: nat, running: bool)

  predicate IsDue(slot: Slot, now: nat) {
    slot.enabled && !slot.running && now >= slot.next
  }

  function Due(slots: map<string, Slot>, now: nat): set<string> {
    DueIn(slots, slots.Keys, now)
  }

  /** The due tasks among `names`. */
  function DueIn(slots: map<string, Slot>, names: set<string>, now: nat): set<string> {
    set name | name in slots && name in names && IsDue(slots[name], now)
  }

  function Mark(slot: Slot, now: nat): Slot {
    if IsDue(slot, now) then slot.(running := true) else slot
  }

  /** The slots after every due task was marked as running. */
  function MarkDue(slots: map<string, Slot>, now: nat): map<string, Slot> {
    MarkIn(slots, slots.Keys, now)
  }

  /** The same for the tasks among `names` only. */
  function MarkIn(slots: map<string, Slot>, names: set<string>, now: nat): map<string, Slot> {
    map name | name in slots :: if name in names then Mark(slots[name], now) else slots[name]
  }

  lemma MarkOneMore(slots: map<string, Slot>, names: set<string>, name: string, now: nat)
    requires name in slots && name !in names
    ensures MarkIn(slots, names, now)[name := Mark(slots[name], now)] == MarkIn(slots, names + {name}, now)
    ensures DueIn(slots, names + {name}, now) == DueIn(slots, names, now) + if IsDue(slots[name], now) then {name} else {}
    ensures !IsDue(slots[name], now) ==> DueIn(slots, names + {name}, now) == DueIn(slots, names, now)
  {}

  lemma MarkNone(slots: map<string, Slot>, now: nat)
    ensures MarkIn(slots, {}, now) == slots && DueIn(slots, {}, now) == {}
  {}

  lemma NotYetMarked(slots: map<string, Slot>, names: set<string>, name: string, now: nat)
    requires name in slots && name !in names
    ensures MarkIn(slots, names, now).Keys == slots.Keys && MarkIn(slots, names, now)[name] == slots[name]
  {}

  /** What is due and what is marked, field by field: an enabled task that is not running and whose time has come. */
  lemma DueIff(slots: map<string, Slot>, now: nat)
    ensures forall name :: name in Due(slots, now) <==>
              name in slots && slots[name].enabled && !slots[name].running && slots[name].next <= now
    ensures MarkDue(slots, now).Keys == slots.Keys
    ensures forall name | name in slots ::
              MarkDue(slots, now)[name].enabled == slots[name].enabled && MarkDue(slots, now)[name].next == slots[name].next &&
              MarkDue(slots, now)[name].running == (slots[name].running || name in Due(slots, now))
  {}

  class Entry {
    const task: Task
    const sched: Schedule
    var enabled: bool
    var next: nat
    var running: bool

    constructor (task: Task, sched: Schedule, enabled: bool)
      ensures this.task == task && this.sched == sched && View() == Slot(enabled, 0, false)
    {
      this.task := task;
      this.sched := sched;
      this.enabled := enabled;
      this.next := 0;
      this.running := false;
    }

    function View(): Slot
      reads this
    {
      Slot(enabled, next, running)
    }

    /** Marks a due entry as running. */
    method MarkIfDue(now: nat) returns (due: bool)
      modifies this
      ensures due == old(IsDue(View(), now))
      ensures View() == Mark(old(View()), now)
    {
      due := enabled && !running && now >= next;
      if due {
        running := true;
      }
    }
  }

  class TaskTable {
    var entries: map<string, Entry>

    /** No two names share an entry. */
    ghost predicate Valid()
      reads this
    {
      forall a, b | a in entries && b in entries && a != b :: entries[a] != entries[b]
    }

    ghost function Objects(): set<Entry>
      reads this
    {
      set name | name in entries :: entries[name]
    }

    ghost function Slots(): map<string, Slot>
      reads this, Objects()
    {
      map name | name in entries :: entries[name].View()
    }

    constructor ()
      ensures Valid() && Slots() == map[]
    {
      entries := map[];
    }

    /** Adds or replaces a task, unless its schedule could not be parsed. */
    method Register(task: Task, parsed: Result<Schedule, CronError>, enabled: bool) returns (r: Option<CronError>)
      requires Valid()
      modifies this
      ensures Valid() && fresh(Objects() - old(Objects()))
      ensures parsed.Err? ==> r == Some(parsed.error) && unchanged(this) && Slots() == old(Slots())
      ensures parsed.Ok? ==> r == None && Slots() == old(Slots())[task.name := Slot(enabled, 0, false)]
      ensures parsed.Ok? ==> task.name in entries && entries[task.name].task == task && entries[task.name].sched == parsed.value
    {
      if parsed.Err? {
        return Some(parsed.error);
      }
      var e := new Entry(task, parsed.value, enabled);
      entries := entries[task.name := e];
      return None;
    }

    /** Marks every due task as running and returns their names, in one critical section. */
    method Tick(now: nat) returns (due: set<string>)
      requires Valid()
      modifies Objects()
      ensures Valid() && unchanged(this)
      ensures due == old(Due(Slots(), now))
      ensures Slots() == old(MarkDue(Slots(), now))
      ensures forall name :: name in due <==>
                name in old(Slots()) && old(Slots())[name].enabled && !old(Slots())[name].running && old(Slots())[name].next <= now
      ensures Slots().Keys == old(Slots()).Keys
      ensures forall name | name in Slots() ::
                Slots()[name].enabled == old(Slots())[name].enabled && Slots()[name].next == old(Slots())[name].next &&
                Slots()[name].running == (old(Slots())[name].running || name in due)
    {
      DueIff(Slots(), now);
      hide IsDue, Mark, MarkIn, DueIn;
      ghost var was, done: set<string> := Slots(), {};
      due := {};
      var rest := entries.Keys;
      MarkNone(was, now);
      while rest != {}
        invariant unchanged(this)
        invariant rest !! done && rest + done == was.Keys
        invariant Slots() == MarkIn(was, done, now)
        invariant due == DueIn(was, done, now)
        decreases rest
      {
        var name :| name in rest;
        NotYetMarked(was, done, name, now);
        var isDue := MarkIfDue(name, now);
        MarkOneMore(was, done, name, now);
        rest, done := rest - {name}, done + {name};
        if isDue {
          due := due + {name};
        }
      }
      assert done == was.Keys;
    }

    /** Marks one entry if it is due. */
    method MarkIfDue(name: string, now: nat) returns (due: bool)
      requires Valid() && name in entries
      modifies entries[name]
      ensures unchanged(this)
      ensures due == old(IsDue(Slots()[name], now))
      ensures Slots() == old(Slots())[name := Mark(old(Slots()[name]), now)]
    {
      due := entries[name].MarkIfDue(now);
    }

    /**
     What runs last when a run that started at `now` ends: the task is free and rescheduled.
     Without a next run the old time stays, and the task is due again at every tick.
     */
    method Finish(name: string, now: nat)
      requires Valid() && name in entries
      modifies entries[name]
      ensures Valid() && unchanged(this)
      ensures !entries[name].running && entries[name].enabled == old(entries[name].enabled)
      ensures entries[name].next == old(entries[name].next) || entries[name].next > now
      ensures entries[name].sched.Interval? ==> entries[name].next == now + entries[name].sched.every
      ensures entries[name].sched.Fields? ==>
                if FiresInWindow(entries[name].sched, now) then IsNext(entries[name].sched, now, entries[name].next)
                else entries[name].next == old(entries[name].next)
      ensures entries[name].sched.Fields? && !FiresInWindow(entries[name].sched, now) ==>
                (entries[name].enabled && old(entries[name].next) <= now ==> forall t | t >= now :: IsDue(Slots()[name], t))
      ensures Slots() == old(Slots())[name := entries[name].View()]
    {
      var e := entries[name];
      e.running := false;
      var next := Cron.Next(e.sched, now);
      if next.Some? {
        e.next := next.value;
      }
    }

    /**
     The first run of a restarted task: a persisted time is kept when it is within the
     catch-up window, and otherwise the schedule decides.
     */
    method ResumeNext(name: string, persisted: Option<nat>, window: nat, now: nat) returns (r: Option<nat>)
      requires name in entries
      ensures persisted.Some? && persisted.value + window >= now ==> r == persisted
      ensures !(persisted.Some? && persisted.value + window >= now) ==>
                var sched := entries[name].sched;
                if sched.Interval? then r == Some(now + sched.every)
                else if FiresInWindow(sched, now) then r.Some? && IsNext(sched, now, r.value)
                else r == None
    {
      if persisted.Some? && !(persisted.value + window < now) {
        return persisted;
      }
      r := Cron.Next(entries[name].sched, now);
    }
  }
}
