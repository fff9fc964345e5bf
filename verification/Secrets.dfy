/**
 The app_secrets table of src/database/secret.go. Times are nanoseconds; the table stores
 them as text with whole seconds, whose order is the order of those seconds.
 */
module Secrets {
  import opened Results
  import opened Calendar

  datatype Key = Key(name: string, version: nat)

  /** A stored value and, once it is superseded, the second at which its grace window closes. */
  datatype Row = Row(value: string, expires: Option<int>)

  type Table = map<Key, Row>

  datatype SecretError = NotFound | GeneratorFailed | EmptySecret

  /** FormatTime keeps whole seconds. */
  function Stamp(t: int): int {
    t / SECOND
  }

  /** A stored stamp lies before the stamp of `now` only if its instant lies before `now`. */
  lemma StampOrder(t: int, now: int)
    requires Stamp(t) < Stamp(now)
    ensures t < now
  {}

  // ----- The current version

  predicate Stored(t: Table, name: string) {
    exists k :: k in t && k.name == name
  }

  predicate IsTop(t: Table, name: string, v: nat) {
    Key(name, v) in t && forall k | k in t && k.name == name :: k.version <= v
  }

  lemma {:induction false} TopExists(t: Table, name: string, keys: set<Key>)
    requires keys <= t.Keys && (exists k :: k in keys && k.name == name)
    ensures exists v :: Key(name, v) in keys && forall k | k in keys && k.name == name :: k.version <= v
    decreases |keys|
  {
    var k :| k in keys && k.name == name;
    var rest := keys - {k};
    if exists j :: j in rest && j.name == name {
      TopExists(t, name, rest);
      var w :| Key(name, w) in rest && forall j | j in rest && j.name == name :: j.version <= w;
      var v := if k.version > w then k.version else w;
      assert Key(name, v) in keys;
    } else {
      assert Key(name, k.version) == k;
    }
  }

  /** The highest stored version of a name. */
  ghost function Top(t: Table, name: string): (v: nat)
    requires Stored(t, name)
    ensures IsTop(t, name, v)
  {
    assert exists v :: IsTop(t, name, v) by {
      TopExists(t, name, t.Keys);
      var v :| Key(name, v) in t.Keys && forall k | k in t.Keys && k.name == name :: k.version <= v;
      assert IsTop(t, name, v);
    }
    var v :| IsTop(t, name, v);
    v
  }

  // ----- The statements

  /** INSERT of version 1 that does nothing when that version exists. */
  function InsertFirst(t: Table, name: string, value: string): Table {
    if Key(name, 1) in t then t else t[Key(name, 1) := Row(value, None)]
  }

  /** The rotation transaction for the current version `v`: the next version, and an expiry on this one. */
  function RotateFrom(t: Table, name: string, v: nat, value: string, expires: int): Table
    requires Key(name, v) in t
  {
    t[Key(name, v + 1) := Row(value, None)][Key(name, v) := t[Key(name, v)].(expires := Some(expires))]
  }

  /** A row that pruning at `now` deletes: superseded, with an expiry in the past. */
  predicate Prunable(t: Table, k: Key, now: int) {
    k in t && t[k].expires.Some? && t[k].expires.value < Stamp(now) &&
    exists j :: j in t && j.name == k.name && j.version > k.version
  }

  ghost function Prune(t: Table, now: int): Table {
    map k | k in t && !Prunable(t, k, now) :: t[k]
  }

  class SecretStore {
    var rows: Table

    constructor ()
      ensures rows == map[]
    {
      rows := map[];
    }

    /** The row with the highest version of a name. */
    method GetSecret(name: string) returns (r: Result<(string, nat, Option<int>), SecretError>)
      ensures r.Err? <==> !Stored(rows, name)
      ensures r.Err? ==> r.error == NotFound
      ensures r.Ok? ==> IsTop(rows, name, r.value.1) && rows[Key(name, r.value.1)] == Row(r.value.0, r.value.2)
    {
      r := Err(NotFound);
      var rest := rows.Keys;
      while rest != {}
        invariant rest <= rows.Keys
        invariant r.Err? ==> r.error == NotFound && forall k | k in rows && k !in rest :: k.name != name
        invariant r.Ok? ==>
                    var k := Key(name, r.value.1);
                    k in rows && k !in rest && rows[k] == Row(r.value.0, r.value.2) &&
                    forall j | j in rows && j !in rest && j.name == name :: j.version <= r.value.1
        decreases |rest|
      {
        var k :| k in rest;
        rest := rest - {k};
        if k.name == name && (r.Err? || k.version > r.value.1) {
          r := Ok((rows[k].value, k.version, rows[k].expires));
        }
      }
    }

    /**
     Reads the secret, or stores a generated one and reads again; `generated` is what the
     generator would return.
     */
    method EnsureSecret(name: string, generated: Result<string, SecretError>) returns (r: Result<(string, nat), SecretError>)
      modifies this
      ensures old(Stored(rows, name)) ==> rows == old(rows) && r.Ok?
      ensures !old(Stored(rows, name)) && (generated.Err? || generated.value == "") ==> rows == old(rows) && r.Err?
      ensures !old(Stored(rows, name)) && generated.Ok? && generated.value != "" ==>
                rows == old(InsertFirst(rows, name, generated.value)) && r == Ok((generated.value, 1))
      ensures r.Ok? ==> IsTop(rows, name, r.value.1) && rows[Key(name, r.value.1)].value == r.value.0
    {
      var first := GetSecret(name);
      if first.Ok? {
        return Ok((first.value.0, first.value.1));
      }
      if generated.Err? {
        return Err(GeneratorFailed);
      }
      if generated.value == "" {
        return Err(EmptySecret);
      }
      if Key(name, 1) !in rows {
        rows := rows[Key(name, 1) := Row(generated.value, None)];
      }
      // Nothing can remove the name between the insert and this read, so the read finds it.
      assert Key(name, 1) in rows;
      var again := GetSecret(name);
      return Ok((again.value.0, again.value.1));
    }

    /** Stores the next version and starts the grace window of the current one, in one transaction. */
    method RotateSecret(name: string, generated: Result<string, SecretError>, now: int, grace: int)
      returns (r: Result<(), SecretError>)
      modifies this
      ensures r.Ok? <==> generated.Ok? && generated.value != "" && old(Stored(rows, name))
      ensures r.Err? ==> rows == old(rows)
      ensures r.Ok? ==> rows == old(RotateFrom(rows, name, Top(rows, name), generated.value, Stamp(now + grace)))
      ensures r.Ok? ==>
                var v := old(Top(rows, name));
                IsTop(rows, name, v + 1) && rows[Key(name, v + 1)] == Row(generated.value, None) &&
                Key(name, v) in rows && rows[Key(name, v)] == Row(old(rows)[Key(name, v)].value, Some((now + grace) / 1_000_000_000)) &&
                rows - {Key(name, v), Key(name, v + 1)} == old(rows) - {Key(name, v), Key(name, v + 1)}
    {
      if generated.Err? {
        return Err(GeneratorFailed);
      }
      if generated.value == "" {
        return Err(EmptySecret);
      }
      var current := GetSecret(name);
      if current.Err? {
        return Err(NotFound);
      }
      var v := current.value.1;
      assert v == Top(rows, name);
      rows := rows[Key(name, v + 1) := Row(generated.value, None)];
      rows := rows[Key(name, v) := rows[Key(name, v)].(expires := Some(Stamp(now + grace)))];
      return Ok(());
    }

    /** Deletes superseded rows whose grace window has closed, and counts them. */
    method PruneSecrets(now: int) returns (deleted: nat)
      modifies this
      ensures rows == old(Prune(rows, now))
      ensures forall k :: k in rows <==>
                k in old(rows) &&
                !(old(rows)[k].expires.Some? && old(rows)[k].expires.value < now / 1_000_000_000 &&
                  exists j :: j in old(rows) && j.name == k.name && j.version > k.version)
      ensures forall k | k in rows :: rows[k] == old(rows)[k]
      ensures deleted == |old(rows)| - |rows|
    {
      var was := rows;
      deleted := 0;
      var rest := was.Keys;
      while rest != {}
        invariant rest <= was.Keys
        invariant forall k :: k in rows <==> k in was && (k in rest || !Prunable(was, k, now))
        invariant forall k | k in rows :: rows[k] == was[k]
        invariant |rows| + deleted == |was|
        decreases |rest|
      {
        var k :| k in rest;
        rest := rest - {k};
        var prunable := was[k].expires.Some? && was[k].expires.value < Stamp(now);
        if prunable {
          prunable := HasHigher(was, k);
        }
        assert prunable == Prunable(was, k, now);
        if prunable {
          assert rows.Keys == (rows - {k}).Keys + {k};
          rows := rows - {k};
          deleted := deleted + 1;
        }
      }
    }
  }

  /** The subquery of the deletion: some row of the same name has a higher version. */
  method HasHigher(rows: Table, k: Key) returns (found: bool)
    ensures found <==> exists j :: j in rows && j.name == k.name && j.version > k.version
  {
    found := false;
    var rest := rows.Keys;
    while rest != {}
      invariant rest <= rows.Keys
      invariant found <==> exists j :: j in rows && j !in rest && j.name == k.name && j.version > k.version
      decreases |rest|
    {
      var j :| j in rest;
      rest := rest - {j};
      if j.name == k.name && j.version > k.version {
        found := true;
      }
    }
  }
}
