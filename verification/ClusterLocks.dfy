/** The cluster_locks table and its two statements, in src/scheduler/lock.go. */
module ClusterLocks {
  import opened Results
  import opened Calendar

  /** How long a lock is held before another node may take it. */
  const LOCK_TTL: nat := 5 * MINUTE

  datatype Row = Row(holder: string, acquired: nat, expires: Option<nat>)

  /** The row is missing, already the holder's own, or past its expiry. */
  predicate CanTake(rows: map<string, Row>, name: string, holder: string, now: nat) {
    name in rows ==> rows[name].holder == holder || rows[name].expires.None? || rows[name].expires.value < now
  }

  function Acquire(rows: map<string, Row>, name: string, holder: string, now: nat): map<string, Row> {
    if CanTake(rows, name, holder, now) then rows[name := Row(holder, now, Some(now + LOCK_TTL))] else rows
  }

  function Release(rows: map<string, Row>, name: string, holder: string): map<string, Row> {
    if name in rows && rows[name].holder == holder then rows - {name} else rows
  }

  class LockTable {
    var rows: map<string, Row>

    constructor ()
      ensures rows == map[]
    {
      rows := map[];
    }

    /** The insert that turns into an update when the row may be taken. */
    method AcquireLock(name: string, holder: string, now: nat) returns (got: bool)
      modifies this
      ensures got == old(CanTake(rows, name, holder, now))
      ensures rows == old(Acquire(rows, name, holder, now))
      ensures got <==> name !in old(rows) || old(rows)[name].holder == holder || old(rows)[name].expires.None? ||
                       old(rows)[name].expires.value < now
      ensures rows == if got then old(rows)[name := Row(holder, now, Some(now + 300_000_000_000))] else old(rows)
    {
      var expires := now + LOCK_TTL;
      if name !in rows {
        rows := rows[name := Row(holder, now, Some(expires))];
        return true;
      }
      var row := rows[name];
      if row.holder == holder || row.expires.None? || row.expires.value < now {
        rows := rows[name := Row(holder, now, Some(expires))];
        return true;
      }
      return false;
    }

    /** The delete that only matches the holder's own row. */
    method ReleaseLock(name: string, holder: string)
      modifies this
      ensures rows == old(Release(rows, name, holder))
      ensures forall k | k in old(rows) :: k in rows <==> !(k == name && old(rows)[k].holder == holder)
      ensures forall k | k in rows :: k in old(rows) && rows[k] == old(rows)[k]
    {
      if name in rows && rows[name].holder == holder {
        rows := rows - {name};
      }
    }
  }
}
