/**
 What happens to a parsed document before it runs, in src/graphql/resolvers.go: picking the
 operation, and turning argument values into data with the variables of the request.
 */
module GraphqlRequests {
  import opened Results
  import opened Text
  import opened GraphqlGrammar

  datatype SelectError = NoOperations | NameRequired | NoSuchOperation(name: string)

  /** An empty name selects the only operation; any other name the first operation of that name. */
  method SelectOperation(ops: seq<Operation>, name: string) returns (r: Result<Operation, SelectError>)
    ensures ops == [] ==> r == Err(NoOperations)
    ensures ops != [] && name == "" ==> r == if |ops| == 1 then Ok(ops[0]) else Err(NameRequired)
    ensures ops != [] && name != "" ==>
              (r.Ok? <==> exists op :: op in ops && op.name == name) &&
              (r.Ok? ==> exists i :: 0 <= i < |ops| && r.value == ops[i] && ops[i].name == name &&
                                     forall j | 0 <= j < i :: ops[j].name != name) &&
              (r.Err? ==> r == Err(NoSuchOperation(name)))
  {
    if |ops| == 0 {
      return Err(NoOperations);
    }
    if name == "" {
      return if |ops| > 1 then Err(NameRequired) else Ok(ops[0]);
    }
    for i := 0 to |ops|
      invariant forall j | 0 <= j < i :: ops[j].name != name
    {
      if ops[i].name == name {
        return Ok(ops[i]);
      }
    }
    return Err(NoSuchOperation(name));
  }

  // ----- Argument values

  datatype Data = Scalar(literal: Literal) | Items(items: seq<Data>) | Members(members: map<string, Data>)

  /** The first key in the order the source sorts them. */
  ghost predicate IsLeast(m: map<string, Value>, k: string) {
    k in m && forall j | j in m :: !Before(j, k)
  }

  lemma {:induction false} LeastExists(m: map<string, Value>, keys: set<string>)
    requires keys != {} && keys <= m.Keys
    ensures exists k :: k in keys && forall j | j in keys :: !Before(j, k)
    decreases |keys|
  {
    hide Before;
    var k :| k in keys;
    var rest := keys - {k};
    BeforeTotal(k, k);
    if rest != {} {
      LeastExists(m, rest);
      var least :| least in rest && forall j | j in rest :: !Before(j, least);
      if Before(k, least) {
        forall j | j in keys ensures !Before(j, k) {
          BeforeTotal(j, k);
          if Before(j, k) {
            BeforeTransitive(j, k, least);
          }
        }
      } else {
        assert least in keys && forall j | j in keys :: !Before(j, least);
      }
    } else {
      assert keys == {k} + rest;
      assert k in keys && forall j | j in keys :: !Before(j, k);
    }
  }

  ghost function Least(m: map<string, Value>): (k: string)
    requires m != map[]
    ensures IsLeast(m, k)
  {
    assert exists k :: IsLeast(m, k) by {
      assert m.Keys != {};
      LeastExists(m, m.Keys);
      var k :| k in m.Keys && forall j | j in m.Keys :: !Before(j, k);
      assert IsLeast(m, k);
    }
    var k :| IsLeast(m, k);
    k
  }

  /** The data a value stands for, or the name of the first variable that is missing. */
  ghost function Resolve(v: Value, vars: map<string, Data>): Result<Data, string>
    decreases v, 1, 0
  {
    match v
    case Variable(name) => if name in vars then Ok(vars[name]) else Err(name)
    case Literal(l) => Ok(Scalar(l))
    case List(items) =>
      (match ResolveItems(items, vars)
       case Ok(ds) => Ok(Items(ds))
       case Err(name) => Err(name))
    case Object(members) =>
      (match ResolveMembers(v, members, vars)
       case Ok(ds) => Ok(Members(ds))
       case Err(name) => Err(name))
  }

  ghost function ResolveItems(items: seq<Value>, vars: map<string, Data>): Result<seq<Data>, string>
    decreases items, 0, 0
  {
    if items == [] then Ok([])
    else
      match Resolve(items[0], vars)
      case Err(name) => Err(name)
      case Ok(d) =>
        match ResolveItems(items[1..], vars)
        case Err(name) => Err(name)
        case Ok(ds) => Ok([d] + ds)
  }

  /** The members of `part`, some of those of the object `whole`, in the order of their keys. */
  ghost function ResolveMembers(whole: Value, part: map<string, Value>, vars: map<string, Data>): Result<map<string, Data>, string>
    requires whole.Object? && forall k | k in part :: k in whole.members && part[k] == whole.members[k]
    decreases whole, 0, |part|
  {
    if part == map[] then Ok(map[])
    else
      var k := Least(part);
      match Resolve(whole.members[k], vars)
      case Err(name) => Err(name)
      case Ok(d) =>
        match ResolveMembers(whole, part - {k}, vars)
        case Err(name) => Err(name)
        case Ok(ds) => Ok(ds[k := d])
  }

  predicate Mentions(v: Value, name: string) {
    match v
    case Variable(n) => n == name
    case Literal(_) => false
    case List(items) => exists i :: 0 <= i < |items| && Mentions(items[i], name)
    case Object(members) => exists k :: k in members && Mentions(members[k], name)
  }

  /** Every variable the value mentions was supplied. */
  ghost predicate Supplied(v: Value, vars: map<string, Data>) {
    forall name | Mentions(v, name) :: name in vars
  }

  /** Items resolve one by one, and an error is that of one of them. */
  lemma {:induction false} ItemsResolve(items: seq<Value>, vars: map<string, Data>)
    ensures ResolveItems(items, vars).Ok? ==>
              |ResolveItems(items, vars).value| == |items| &&
              forall i | 0 <= i < |items| :: Resolve(items[i], vars) == Ok(ResolveItems(items, vars).value[i])
    ensures ResolveItems(items, vars).Err? ==>
              exists i :: 0 <= i < |items| && Resolve(items[i], vars) == Err(ResolveItems(items, vars).error)
  {
    if items != [] {
      ItemsResolve(items[1..], vars);
      hide Resolve;
      if Resolve(items[0], vars).Ok? && ResolveItems(items[1..], vars).Err? {
        var i :| 0 <= i < |items[1..]| && Resolve(items[1..][i], vars) == Err(ResolveItems(items[1..], vars).error);
        assert items[i + 1] == items[1..][i];
      }
    }
  }

  /** So do members. */
  lemma {:induction false} MembersResolve(whole: Value, part: map<string, Value>, vars: map<string, Data>)
    requires whole.Object? && forall k | k in part :: k in whole.members && part[k] == whole.members[k]
    ensures ResolveMembers(whole, part, vars).Ok? ==>
              ResolveMembers(whole, part, vars).value.Keys == part.Keys &&
              forall k | k in part :: Resolve(part[k], vars) == Ok(ResolveMembers(whole, part, vars).value[k])
    ensures ResolveMembers(whole, part, vars).Err? ==>
              exists k :: k in part && Resolve(part[k], vars) == Err(ResolveMembers(whole, part, vars).error)
    decreases |part|
  {
    if part != map[] {
      var k := FirstMember(whole, part, vars);
      var rest := part - {k};
      MembersResolve(whole, rest, vars);
      hide Resolve, ResolveMembers;
      assert forall j | j in part :: j == k || (j in rest && rest[j] == part[j]);
    }
  }

  /** Resolving succeeds exactly when every variable was supplied, and an error names one that was not. */
  lemma {:induction false} ResolvesIffSupplied(v: Value, vars: map<string, Data>)
    ensures Resolve(v, vars).Ok? <==> Supplied(v, vars)
    ensures Resolve(v, vars).Err? ==> Mentions(v, Resolve(v, vars).error) && Resolve(v, vars).error !in vars
  {
    match v {
      case Variable(name) => assert Mentions(v, name);
      case Literal(_) =>
      case List(items) =>
        ItemsResolve(items, vars);
        forall i | 0 <= i < |items| {
          ResolvesIffSupplied(items[i], vars);
        }
        if ResolveItems(items, vars).Ok? {
          forall name | Mentions(v, name) ensures name in vars {
            var i :| 0 <= i < |items| && Mentions(items[i], name);
            assert Supplied(items[i], vars);
          }
        }
      case Object(members) =>
        MembersResolve(v, members, vars);
        forall k | k in members {
          ResolvesIffSupplied(members[k], vars);
        }
        if ResolveMembers(v, members, vars).Ok? {
          forall name | Mentions(v, name) ensures name in vars {
            var k :| k in members && Mentions(members[k], name);
            assert Supplied(members[k], vars);
          }
        }
    }
  }

  /** One step of resolving members. */
  lemma FirstMember(whole: Value, part: map<string, Value>, vars: map<string, Data>) returns (k: string)
    requires part != map[]
    requires whole.Object? && forall k | k in part :: k in whole.members && part[k] == whole.members[k]
    ensures k in part
    ensures ResolveMembers(whole, part, vars) ==
            match Resolve(part[k], vars)
            case Err(name) => Err(name)
            case Ok(d) => With(k, d, ResolveMembers(whole, part - {k}, vars))
  {
    hide Before;
    k := Least(part);
  }

  function With(k: string, d: Data, rest: Result<map<string, Data>, string>): Result<map<string, Data>, string> {
    match rest
    case Err(name) => Err(name)
    case Ok(ds) => Ok(ds[k := d])
  }

  // ----- Writing the variables into the query

  /** The value that stands for given data without any variable. */
  function Written(d: Data): Value {
    match d
    case Scalar(l) => Value.Literal(l)
    case Items(ds) => List(seq(|ds|, i requires 0 <= i < |ds| => Written(ds[i])))
    case Members(ms) => Object(map k | k in ms :: Written(ms[k]))
  }

  /** Every variable that was supplied replaced by its data. */
  function Inlined(v: Value, vars: map<string, Data>): Value {
    match v
    case Variable(name) => if name in vars then Written(vars[name]) else v
    case Literal(_) => v
    case List(items) => List(seq(|items|, i requires 0 <= i < |items| => Inlined(items[i], vars)))
    case Object(members) => Object(map k | k in members :: Inlined(members[k], vars))
  }

  /** Written data resolves to itself, whatever the variables. */
  lemma {:induction false} WrittenResolves(d: Data, vars: map<string, Data>)
    ensures Resolve(Written(d), vars) == Ok(d)
  {
    var v := Written(d);
    match d {
      case Scalar(_) =>
      case Items(ds) =>
        forall i | 0 <= i < |ds| ensures Resolve(v.items[i], vars) == Ok(ds[i]) {
          WrittenResolves(ds[i], vars);
        }
        ItemsResolve(v.items, vars);
        assert ResolveItems(v.items, vars).value == ds;
      case Members(ms) =>
        forall k | k in ms ensures Resolve(v.members[k], vars) == Ok(ms[k]) {
          WrittenResolves(ms[k], vars);
        }
        MembersResolve(v, v.members, vars);
        assert ResolveMembers(v, v.members, vars).value == ms;
    }
  }

  lemma SameItems(items: seq<Value>, vars: map<string, Data>, items': seq<Value>, vars': map<string, Data>)
    requires |items| == |items'|
    requires forall i | 0 <= i < |items| :: Resolve(items[i], vars).Ok? && Resolve(items'[i], vars') == Resolve(items[i], vars)
    ensures Resolve(List(items'), vars') == Resolve(List(items), vars)
  {
    ItemsResolve(items, vars);
    ItemsResolve(items', vars');
    assert ResolveItems(items, vars).value == ResolveItems(items', vars').value;
  }

  lemma ObjectResolves(ms: map<string, Value>, vars: map<string, Data>)
    ensures ResolveMembers(Object(ms), ms, vars).Ok? ==>
              Resolve(Object(ms), vars) == Ok(Members(ResolveMembers(Object(ms), ms, vars).value))
  {}

  lemma SameMembers(ms: map<string, Value>, vars: map<string, Data>, ms': map<string, Value>, vars': map<string, Data>)
    requires ms.Keys == ms'.Keys
    requires forall k | k in ms :: Resolve(ms[k], vars).Ok? && Resolve(ms'[k], vars') == Resolve(ms[k], vars)
    ensures Resolve(Object(ms'), vars') == Resolve(Object(ms), vars)
  {
    hide Supplied, Mentions;
    ObjectResolves(ms, vars);
    ObjectResolves(ms', vars');
    hide Resolve, ResolveMembers;
    MembersResolve(Object(ms), ms, vars);
    MembersResolve(Object(ms'), ms', vars');
    assert ResolveMembers(Object(ms), ms, vars).value == ResolveMembers(Object(ms'), ms', vars').value;
  }

  /** Writing the variables of a request into its query does not change what the arguments resolve to. */
  lemma {:induction false} InliningKeepsMeaning(v: Value, vars: map<string, Data>, others: map<string, Data>)
    requires Supplied(v, vars)
    ensures Resolve(Inlined(v, vars), others) == Resolve(v, vars)
  {
    hide ResolveItems, ResolveMembers, Written;
    match v {
      case Variable(name) =>
        assert Mentions(v, name);
        WrittenResolves(vars[name], others);
      case Literal(_) =>
      case List(items) =>
        hide Resolve;
        forall i | 0 <= i < |items|
          ensures Resolve(items[i], vars).Ok? && Resolve(Inlined(items[i], vars), others) == Resolve(items[i], vars)
        {
          assert Supplied(items[i], vars) by {
            assert forall name | Mentions(items[i], name) :: Mentions(v, name);
          }
          InliningKeepsMeaning(items[i], vars, others);
          ResolvesIffSupplied(items[i], vars);
        }
        SameItems(items, vars, Inlined(v, vars).items, others);
      case Object(members) =>
        hide Resolve;
        forall k | k in members
          ensures Resolve(members[k], vars).Ok? && Resolve(Inlined(members[k], vars), others) == Resolve(members[k], vars)
        {
          assert Supplied(members[k], vars) by {
            assert forall name | Mentions(members[k], name) :: Mentions(v, name);
          }
          InliningKeepsMeaning(members[k], vars, others);
          ResolvesIffSupplied(members[k], vars);
        }
        SameMembers(members, vars, Inlined(v, vars).members, others);
    }
  }

  /** Variables that a value does not mention do not matter. */
  lemma OtherVariablesDoNotMatter(v: Value, a: map<string, Data>, b: map<string, Data>)
    requires forall name | Mentions(v, name) :: name in a && name in b && a[name] == b[name]
    ensures Resolve(v, a) == Resolve(v, b)
  {
    SameInlined(v, a, b);
    InliningKeepsMeaning(v, a, map[]);
    InliningKeepsMeaning(v, b, map[]);
  }

  lemma {:induction false} SameInlined(v: Value, a: map<string, Data>, b: map<string, Data>)
    requires forall name | Mentions(v, name) :: name in a && name in b && a[name] == b[name]
    ensures Inlined(v, a) == Inlined(v, b)
  {
    match v {
      case Variable(name) => assert Mentions(v, name);
      case Literal(_) =>
      case List(items) =>
        forall i | 0 <= i < |items| ensures Inlined(items[i], a) == Inlined(items[i], b) {
          assert forall name | Mentions(items[i], name) :: Mentions(v, name);
          SameInlined(items[i], a, b);
        }
      case Object(members) =>
        forall k | k in members ensures Inlined(members[k], a) == Inlined(members[k], b) {
          assert forall name | Mentions(members[k], name) :: Mentions(v, name);
          SameInlined(members[k], a, b);
        }
    }
  }
}
