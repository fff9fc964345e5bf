/**
 The in-process cache of src/cache/memory.go. Its map forgets expired entries at odd
 moments; the reference below remembers the history of calls instead and never forgets.
 Each operation takes the time its clock read as a parameter.
 */
module MemoryCache {
  import opened Results
  import opened Text

  datatype Entry = Entry(value: string, expires: Option<int>)

  type Entries = map<string, Entry>

  /** Past the expiry; at the very instant of it the entry is still live. */
  predicate Expired(e: Entry, now: int) {
    e.expires.Some? && now > e.expires.value
  }

  /** A ttl of zero or less stores without an expiry. */
  function NewEntry(value: string, ttl: int, now: int): Entry {
    Entry(value, if ttl > 0 then Some(now + ttl) else None)
  }

  function Lookup(entries: Entries, key: string, now: int): Option<string> {
    if key in entries && !Expired(entries[key], now) then Some(entries[key].value) else None
  }

  // ----- The operations

  datatype Op =
    | Set(key: string, value: string, ttl: int, now: int)
    | SetNX(key: string, value: string, ttl: int, now: int)
    | Delete(keys: seq<string>)
    | DeletePrefix(prefix: string)
    | Sweep(now: int)

  function Apply(entries: Entries, op: Op): Entries {
    match op
    case Set(key, value, ttl, now) => entries[key := NewEntry(value, ttl, now)]
    case SetNX(key, value, ttl, now) =>
      if Lookup(entries, key, now).Some? then entries else entries[key := NewEntry(value, ttl, now)]
    case Delete(keys) => map k | k in entries && k !in keys :: entries[k]
    case DeletePrefix(prefix) => map k | k in entries && !HasPrefix(k, prefix) :: entries[k]
    case Sweep(now) => map k | k in entries && !Expired(entries[k], now) :: entries[k]
  }

  class Cache {
    var entries: Entries

    constructor ()
      ensures entries == map[]
    {
      entries := map[];
    }

    method Get(key: string, now: int) returns (value: Option<string>)
      ensures value == Lookup(entries, key, now)
    {
      if key !in entries || Expired(entries[key], now) {
        return None;
      }
      return Some(entries[key].value);
    }

    method Set(key: string, value: string, ttl: int, now: int)
      modifies this
      ensures entries == Apply(old(entries), Op.Set(key, value, ttl, now))
    {
      entries := entries[key := NewEntry(value, ttl, now)];
    }

    method SetNX(key: string, value: string, ttl: int, now: int) returns (stored: bool)
      modifies this
      ensures stored == Lookup(old(entries), key, now).None?
      ensures entries == Apply(old(entries), Op.SetNX(key, value, ttl, now))
    {
      if key in entries && !Expired(entries[key], now) {
        return false;
      }
      entries := entries[key := NewEntry(value, ttl, now)];
      return true;
    }

    method Delete(keys: seq<string>)
      modifies this
      ensures entries == Apply(old(entries), Op.Delete(keys))
    {
      for i := 0 to |keys|
        invariant entries == map k | k in old(entries) && k !in keys[..i] :: old(entries)[k]
      {
        entries := entries - {keys[i]};
      }
    }

    method DeletePrefix(prefix: string)
      modifies this
      ensures entries == Apply(old(entries), Op.DeletePrefix(prefix))
    {
      var was, rest := entries, entries.Keys;
      while rest != {}
        invariant rest <= was.Keys
        invariant entries == map k | k in was && (k in rest || !HasPrefix(k, prefix)) :: was[k]
        decreases |rest|
      {
        var k :| k in rest;
        rest := rest - {k};
        if HasPrefix(k, prefix) {
          entries := entries - {k};
        }
      }
    }

    method Sweep(now: int)
      modifies this
      ensures entries == Apply(old(entries), Op.Sweep(now))
    {
      var was, rest := entries, entries.Keys;
      while rest != {}
        invariant rest <= was.Keys
        invariant entries == map k | k in was && (k in rest || !Expired(was[k], now)) :: was[k]
        decreases |rest|
      {
        var k :| k in rest;
        rest := rest - {k};
        if Expired(was[k], now) {
          entries := entries - {k};
        }
      }
    }
  }

  // ----- The reference: what a history of calls stored last

  function Run(history: seq<Op>): Entries {
    if history == [] then map[] else Apply(Run(history[..|history| - 1]), history[|history| - 1])
  }

  /**
   The last write to a key that no later deletion undid, after one more call. Sweeps do not
   exist here, and a conditional write counts when the key has no live value.
   */
  function Extended(last: Option<Entry>, op: Op, key: string): Option<Entry> {
    match op
    case Set(k, value, ttl, now) => if k == key then Some(NewEntry(value, ttl, now)) else last
    case SetNX(k, value, ttl, now) =>
      if k == key && LiveValue(last, now).None? then Some(NewEntry(value, ttl, now)) else last
    case Delete(keys) => if key in keys then None else last
    case DeletePrefix(prefix) => if HasPrefix(key, prefix) then None else last
    case Sweep(_) => last
  }

  function LiveValue(last: Option<Entry>, now: int): Option<string> {
    if last.Some? && !Expired(last.value, now) then Some(last.value.value) else None
  }

  function LastWrite(history: seq<Op>, key: string): Option<Entry> {
    if history == [] then None
    else Extended(LastWrite(history[..|history| - 1], key), history[|history| - 1], key)
  }

  /** The last stored, undeleted, unexpired value. */
  function Read(history: seq<Op>, key: string, now: int): Option<string> {
    LiveValue(LastWrite(history, key), now)
  }

  /**
   No conditional write reads the clock before an earlier sweep did, and neither does the
   reader at `t`. A clock that never goes back gives this.
   */
  predicate SweptBefore(history: seq<Op>, t: int) {
    forall i | 0 <= i < |history| && history[i].Sweep? ::
      history[i].now <= t &&
      forall j | i < j < |history| && history[j].SetNX? :: history[i].now <= history[j].now
  }

  /** An entry is in the map, or is out of it because a sweep at `swept` found it expired. */
  predicate Agree(entries: Entries, last: Option<Entry>, key: string, swept: Option<int>) {
    if key in entries then last == Some(entries[key])
    else last.Some? ==> swept.Some? && Expired(last.value, swept.value)
  }

  function Latest(history: seq<Op>): Option<int> {
    if history == [] then None
    else
      var before := Latest(history[..|history| - 1]);
      var op := history[|history| - 1];
      if op.Sweep? && (before.None? || op.now > before.value) then Some(op.now) else before
  }

  lemma {:induction false} LatestSweep(history: seq<Op>, t: int)
    requires SweptBefore(history, t)
    ensures Latest(history).Some? ==> Latest(history).value <= t
  {
    if history != [] {
      var k := |history| - 1;
      assert SweptBefore(history[..k], t);
      LatestSweep(history[..k], t);
    }
  }

  lemma AgreeStep(entries: Entries, last: Option<Entry>, op: Op, key: string, swept: Option<int>, swept': Option<int>)
    requires Agree(entries, last, key, swept)
    requires op.SetNX? && swept.Some? ==> swept.value <= op.now
    requires swept' == if op.Sweep? && (swept.None? || op.now > swept.value) then Some(op.now) else swept
    ensures Agree(Apply(entries, op), Extended(last, op, key), key, swept')
  {}

  lemma {:induction false} RunAgrees(history: seq<Op>, t: int, key: string)
    requires SweptBefore(history, t)
    ensures Agree(Run(history), LastWrite(history, key), key, Latest(history))
  {
    if history != [] {
      var k := |history| - 1;
      var before, op := history[..k], history[k];
      assert SweptBefore(before, t);
      RunAgrees(before, t, key);
      if op.SetNX? {
        assert SweptBefore(before, op.now) by {
          forall i | 0 <= i < k && before[i].Sweep? ensures before[i].now <= op.now {
            assert history[i].Sweep?;
          }
        }
        LatestSweep(before, op.now);
      }
      AgreeStep(Run(before), LastWrite(before, key), op, key, Latest(before), Latest(history));
    }
  }

  /**
   Whatever the history, Get at a time that no sweep was after returns the last stored,
   undeleted, unexpired value.
   */
  lemma GetReadsHistory(history: seq<Op>, key: string, t: int)
    requires SweptBefore(history, t)
    ensures Lookup(Run(history), key, t) == Read(history, key, t)
  {
    RunAgrees(history, t, key);
    LatestSweep(history, t);
  }

  /** A conditional write stores exactly when the history leaves the key without a live value. */
  lemma SetNXStoresWhenNotLive(history: seq<Op>, op: Op)
    requires op.SetNX? && SweptBefore(history, op.now)
    ensures Lookup(Run(history), op.key, op.now).None? <==> Read(history, op.key, op.now).None?
    ensures Read(history + [op], op.key, op.now) ==
            if Read(history, op.key, op.now).None? then Some(op.value) else Read(history, op.key, op.now)
  {
    GetReadsHistory(history, op.key, op.now);
    assert (history + [op])[..|history|] == history;
  }

  /** A stored value can be read for exactly its ttl, or for ever; other keys read as before. */
  lemma StoredForItsTtl(history: seq<Op>, op: Op, key: string, t: int)
    requires op.Set? && t >= op.now
    ensures Read(history + [op], key, t) ==
            if key != op.key then Read(history, key, t)
            else if op.ttl <= 0 || t <= op.now + op.ttl then Some(op.value)
            else None
  {
    assert (history + [op])[..|history|] == history;
  }

  /**
   The only reads that can tell a sweep happened are those whose clock stands before the
   sweep's, at a moment when the swept entry had not expired.
   */
  lemma SweepIsVisible(entries: Entries, now: int, key: string, t: int)
    ensures Lookup(Apply(entries, Sweep(now)), key, t) != Lookup(entries, key, t) <==>
            key in entries && entries[key].expires.Some? && t <= entries[key].expires.value < now
  {}
}
