/**
 The reference parser accepts exactly the token sequences that some allowed document
 is written as, and returns that document: it inverts writing in both directions.
 */
module GraphqlExactness {
  import opened Results
  import opened GraphqlLexer
  import opened GraphqlGrammar

  lemma Assoc(a: seq<Token>, b: seq<Token>, c: seq<Token>)
    ensures a + b + c == a + (b + c)
  {}

  // ----- What is parsed is what was written

  lemma {:induction false} ValueSound(ts: seq<Token>)
    requires PValue(ts).Done?
    ensures ts == ValueToks(PValue(ts).value) + PValue(ts).rest
    decreases |ts|, 0
  {
    var h := Head(ts);
    assert ts == [h] + ts[1..];
    if h == Punct('[') {
      ItemsSound(ts[1..]);
      Assoc([h], ItemsToks(PItems(ts[1..]).value), PValue(ts).rest);
    } else if h == Punct('{') {
      MembersSound(ts[1..]);
      Assoc([h], MembersToks(PMembers(ts[1..]).value, '}'), PValue(ts).rest);
    }
  }

  lemma {:induction false} ItemsSound(ts: seq<Token>)
    requires PItems(ts).Done?
    ensures ts == ItemsToks(PItems(ts).value) + PItems(ts).rest
    decreases |ts|, 1
  {
    hide PValue, ValueToks;
    if Head(ts) != Punct(']') {
      ValueSound(ts);
      ItemsSound(PValue(ts).rest);
      var v, vs := PValue(ts).value, PItems(PValue(ts).rest).value;
      assert ([v] + vs)[1..] == vs;
      Assoc(ValueToks(v), ItemsToks(vs), PItems(ts).rest);
    }
  }

  lemma {:induction false} MemberSound(ts: seq<Token>)
    requires PMember(ts).Done?
    ensures ts == [Name(PMember(ts).value.key), Punct(':')] + (ValueToks(PMember(ts).value.value) + PMember(ts).rest)
    decreases |ts|, 1
  {
    hide PValue, ValueToks;
    ValueSound(ts[1..][1..]);
  }

  lemma {:induction false} MembersSound(ts: seq<Token>)
    requires PMembers(ts).Done?
    ensures ts == MembersToks(PMembers(ts).value, '}') + PMembers(ts).rest
    decreases |ts|, 2
  {
    hide PMember, ValueToks;
    if Head(ts) != Punct('}') {
      MemberSound(ts);
      var m, ts1 := PMember(ts).value, PMember(ts).rest;
      MembersSound(ts1);
      WriteMember(m, PMembers(ts1).value, '}', PMembers(ts1).rest);
    }
  }

  lemma WriteMember(m: CMember, ms: seq<CMember>, close: char, rest: seq<Token>)
    ensures MembersToks([m] + ms, close) + rest ==
            [Name(m.key), Punct(':')] + (ValueToks(m.value) + (MembersToks(ms, close) + rest))
  {
    hide ValueToks;
    assert ([m] + ms)[1..] == ms;
    Assoc(ValueToks(m.value), MembersToks(ms, close), rest);
    Assoc([Name(m.key), Punct(':')], ValueToks(m.value) + MembersToks(ms, close), rest);
  }

  lemma {:induction false} ArgsSound(ts: seq<Token>, seen: set<string>)
    requires PArgs(ts, seen).Done?
    ensures ts == MembersToks(PArgs(ts, seen).value, ')') + PArgs(ts, seen).rest
    ensures DistinctKeys(PArgs(ts, seen).value)
    ensures forall m | m in PArgs(ts, seen).value :: m.key !in seen
    decreases |ts|
  {
    hide PValue, ValueToks;
    if Head(ts) != Punct(')') {
      MemberSound(ts);
      var m, ts1 := PMember(ts).value, PMember(ts).rest;
      var ms := PArgs(ts1, seen + {m.key}).value;
      ArgsSound(ts1, seen + {m.key});
      WriteMember(m, ms, ')', PArgs(ts, seen).rest);
      assert forall i | 0 <= i < |ms| :: ms[i] in ms;
    }
  }

  lemma OptArgsSound(ts: seq<Token>)
    requires POptArgs(ts).Done?
    ensures var r := POptArgs(ts);
            ts == (if r.value.Some? then [Punct('(')] + MembersToks(r.value.value, ')') else []) + r.rest
    ensures POptArgs(ts).value.Some? ==> DistinctKeys(POptArgs(ts).value.value)
  {
    hide PArgs, MembersToks;
    if Head(ts) == Punct('(') {
      ArgsSound(ts[1..], {});
      Assoc([Punct('(')], MembersToks(PArgs(ts[1..], {}).value, ')'), POptArgs(ts).rest);
      assert ts == [ts[0]] + ts[1..];
    }
  }

  function ArgsPart(args: Option<seq<CMember>>): seq<Token> {
    if args.Some? then [Punct('(')] + MembersToks(args.value, ')') else []
  }

  function NestedPart(nested: CNested): seq<Token> {
    if nested.CSet? then [Punct('{')] + SelectionsToks(nested.selections) else []
  }

  function AliasPart(alias: Option<string>): seq<Token> {
    if alias.Some? then [Name(alias.value), Punct(':')] else []
  }

  lemma {:induction false} FieldSound(alias: Option<string>, name: string, ts: seq<Token>)
    requires PField(alias, name, ts).Done?
    ensures var r := PField(alias, name, ts);
            r.value.alias == alias && r.value.name == name && ValidSelection(r.value) &&
            ts == ArgsPart(r.value.args) + (NestedPart(r.value.nested) + r.rest)
    decreases |ts|, 2
  {
    hide POptArgs, MembersToks, SelectionsToks, DistinctKeys, PSelectionSet, ValidSelections;
    OptArgsSound(ts);
    var ts1, rest := POptArgs(ts).rest, PField(alias, name, ts).rest;
    if Head(ts1) == Punct('{') {
      SelectionSetSound(ts1[1..]);
      var nested := PSelectionSet(ts1[1..]).value;
      assert ts1 == [Punct('{')] + ts1[1..];
      Assoc([Punct('{')], SelectionsToks(nested), rest);
      assert ts1 == NestedPart(CSet(nested)) + rest;
    } else {
      assert ts1 == NestedPart(CLeaf) + rest;
    }
  }

  lemma {:induction false} SelectionSound(ts: seq<Token>)
    requires PSelection(ts).Done?
    ensures ts == SelectionToks(PSelection(ts).value) + PSelection(ts).rest
    ensures ValidSelection(PSelection(ts).value)
    decreases |ts|, 0
  {
    hide PField, MembersToks, SelectionsToks, DistinctKeys, ValidSelections;
    var ts1 := ts[1..];
    if Head(ts1) == Punct(':') {
      FieldSound(Some(ts[0].text), ts1[1].text, ts1[1..][1..]);
    } else {
      FieldSound(None, ts[0].text, ts1);
    }
    var s, rest := PSelection(ts).value, PSelection(ts).rest;
    WriteSelection(s, rest);
  }

  lemma WriteSelection(s: CSelection, rest: seq<Token>)
    ensures SelectionToks(s) + rest ==
            AliasPart(s.alias) + ([Name(s.name)] + (ArgsPart(s.args) + (NestedPart(s.nested) + rest)))
  {
    hide MembersToks, SelectionsToks;
    var a, n, g, d := AliasPart(s.alias), [Name(s.name)], ArgsPart(s.args), NestedPart(s.nested);
    assert SelectionToks(s) == a + (n + (g + d));
    assert a + (n + (g + d)) + rest == a + (n + (g + (d + rest)));
  }

  lemma {:induction false} SelectionSetSound(ts: seq<Token>)
    requires PSelectionSet(ts).Done?
    ensures ts == SelectionsToks(PSelectionSet(ts).value) + PSelectionSet(ts).rest
    ensures PSelectionSet(ts).value != [] && ValidSelections(PSelectionSet(ts).value)
    decreases |ts|, 1, 1
  {
    SelectionsSound(ts);
  }

  lemma {:induction false} SelectionsSound(ts: seq<Token>)
    requires PSelections(ts).Done?
    ensures ts == SelectionsToks(PSelections(ts).value) + PSelections(ts).rest
    ensures ValidSelections(PSelections(ts).value)
    decreases |ts|, 1, 0
  {
    hide PSelection, SelectionToks, ValidSelection;
    if Head(ts) != Punct('}') {
      SelectionSound(ts);
      var s, ts1 := PSelection(ts).value, PSelection(ts).rest;
      SelectionsSound(ts1);
      var ss := PSelections(ts1).value;
      assert ([s] + ss)[1..] == ss;
      Assoc(SelectionToks(s), SelectionsToks(ss), PSelections(ts).rest);
    }
  }

  lemma {:induction false} MarksSound(ts: seq<Token>)
    ensures ts == MarksToks(Marks(ts)) + ts[Marks(ts)..]
  {
    if Head(ts) == Punct('!') {
      MarksSound(ts[1..]);
      assert ts == [ts[0]] + ts[1..];
    }
  }

  /** What reading a list type says about its parts. */
  lemma ListTypeParts(ts: seq<Token>)
    requires PType(ts).Done? && Head(ts) == Punct('[')
    ensures PType(ts[1..]).Done? && PType(ts[1..]).rest != [] && PType(ts[1..]).rest[0] == Punct(']')
    ensures var inner, ts2 := PType(ts[1..]).value, PType(ts[1..]).rest[1..];
            PType(ts) == Done(CListOf(inner, Marks(ts2)), ts2[Marks(ts2)..])
  {
    hide Marks;
  }

  lemma {:induction false} TypeSound(ts: seq<Token>)
    requires PType(ts).Done?
    ensures ts == TypeToks(PType(ts).value) + PType(ts).rest
    decreases |ts|
  {
    hide Marks, MarksToks;
    if Head(ts) == Punct('[') {
      ListTypeParts(ts);
      hide PType, TypeToks;
      TypeSound(ts[1..]);
      var inner, rest := PType(ts[1..]).value, PType(ts[1..]).rest;
      MarksSound(rest[1..]);
      WriteListType(inner, Marks(rest[1..]), rest[1..][Marks(rest[1..])..]);
      assert ts == [Punct('[')] + ts[1..] && rest == [Punct(']')] + rest[1..];
    } else {
      assert ts == [ts[0]] + ts[1..];
      MarksSound(ts[1..]);
    }
  }

  lemma WriteListType(inner: CType, marks: nat, rest: seq<Token>)
    ensures TypeToks(CListOf(inner, marks)) + rest ==
            [Punct('[')] + (TypeToks(inner) + ([Punct(']')] + (MarksToks(marks) + rest)))
  {
    hide MarksToks;
    var i, m := TypeToks(inner), MarksToks(marks);
    assert [Punct('[')] + (i + ([Punct(']')] + m)) + rest == [Punct('[')] + (i + ([Punct(']')] + (m + rest)));
  }

  lemma DefaultSound(ts: seq<Token>)
    requires PDefault(ts).Done?
    ensures ts == DefaultToks(PDefault(ts).value) + PDefault(ts).rest
  {
    hide PValue, ValueToks;
    if Head(ts) == Punct('=') {
      ValueSound(ts[1..]);
      assert ts == [ts[0]] + ts[1..];
    }
  }

  lemma {:induction false} VarsSound(ts: seq<Token>)
    requires PVars(ts).Done?
    ensures ts == VarsToks(PVars(ts).value) + PVars(ts).rest
    decreases |ts|
  {
    hide PType, PDefault, TypeToks, DefaultToks;
    if Head(ts) != Punct(')') {
      var v, ts1 := PVarDef(ts).value, PVarDef(ts).rest;
      VarDefSound(ts);
      VarsSound(ts1);
      WriteVar(v, PVars(ts1).value, PVars(ts1).rest);
    }
  }

  lemma VarDefSound(ts: seq<Token>)
    requires PVarDef(ts).Done?
    ensures var v := PVarDef(ts).value;
            ts == [Punct('$'), Name(v.name), Punct(':')] + (TypeToks(v.typ) + (DefaultToks(v.default) + PVarDef(ts).rest))
  {
    hide PType, PDefault, TypeToks, DefaultToks;
    var ts3 := ts[1..][1..][1..];
    TypeSound(ts3);
    DefaultSound(PType(ts3).rest);
    assert ts == [ts[0], ts[1], ts[2]] + ts3;
  }

  lemma WriteVar(v: CVarDef, vs: seq<CVarDef>, rest: seq<Token>)
    ensures VarsToks([v] + vs) + rest ==
            [Punct('$'), Name(v.name), Punct(':')] + (TypeToks(v.typ) + (DefaultToks(v.default) + (VarsToks(vs) + rest)))
  {
    hide TypeToks, DefaultToks;
    assert ([v] + vs)[1..] == vs;
    var h, t, d := [Punct('$'), Name(v.name), Punct(':')], TypeToks(v.typ), DefaultToks(v.default);
    assert h + (t + (d + VarsToks(vs))) + rest == h + (t + (d + (VarsToks(vs) + rest)));
  }

  function NamePart(name: Option<string>): seq<Token> {
    if name.Some? then [Name(name.value)] else []
  }

  function VarsPart(vars: Option<seq<CVarDef>>): seq<Token> {
    if vars.Some? then [Punct('(')] + VarsToks(vars.value) else []
  }

  lemma OptVarsSound(ts: seq<Token>)
    requires POptVars(ts).Done?
    ensures ts == VarsPart(POptVars(ts).value) + POptVars(ts).rest
  {
    hide PVars, VarsToks;
    if Head(ts) == Punct('(') {
      VarsSound(ts[1..]);
      assert ts == [ts[0]] + ts[1..];
    }
  }

  lemma WriteOperation(op: COperation, rest: seq<Token>)
    requires op.CFull?
    ensures OperationToks(op) + rest ==
            [Name(op.kind)] + (NamePart(op.name) + (VarsPart(op.vars) + ([Punct('{')] + (SelectionsToks(op.selections) + rest))))
  {
    hide SelectionsToks, VarsToks;
    var k, n, v, b, s := [Name(op.kind)], NamePart(op.name), VarsPart(op.vars), [Punct('{')], SelectionsToks(op.selections);
    assert OperationToks(op) == k + (n + (v + (b + s)));
    assert k + (n + (v + (b + s))) + rest == k + (n + (v + (b + (s + rest))));
  }

  lemma FullSound(kind: string, ts: seq<Token>)
    requires PFull(kind, ts).Done?
    ensures var op := PFull(kind, ts).value;
            [Name(kind)] + ts == OperationToks(op) + PFull(kind, ts).rest &&
            op.selections != [] && ValidSelections(op.selections)
  {
    hide POptVars, PSelectionSet, SelectionsToks, VarsToks, ValidSelections;
    var op, rest := PFull(kind, ts).value, PFull(kind, ts).rest;
    var ts1 := POptName(ts).1;
    assert ts == NamePart(op.name) + ts1;
    OptVarsSound(ts1);
    var ts2 := POptVars(ts1).rest;
    SelectionSetSound(ts2[1..]);
    assert ts2 == [Punct('{')] + ts2[1..];
    WriteOperation(op, rest);
  }

  lemma OperationSound(ts: seq<Token>)
    requires POperation(ts).Done?
    ensures ts == OperationToks(POperation(ts).value) + POperation(ts).rest
    ensures ValidOperation(POperation(ts).value)
  {
    hide PFull, PSelectionSet, SelectionsToks, ValidSelections;
    var op, rest := POperation(ts).value, POperation(ts).rest;
    assert ts == [ts[0]] + ts[1..];
    if Head(ts).Name? {
      FullSound(ts[0].text, ts[1..]);
    } else {
      SelectionSetSound(ts[1..]);
      Assoc([Punct('{')], SelectionsToks(op.selections), rest);
    }
  }

  lemma {:induction false} OperationsSound(ts: seq<Token>)
    requires Eof !in ts && POperations(ts).Ok?
    ensures ts == DocumentToks(POperations(ts).value)
    ensures forall op | op in POperations(ts).value :: ValidOperation(op)
    decreases |ts|
  {
    hide POperation, OperationToks, ValidOperation;
    if ts != [] {
      OperationSound(ts);
      var op, ts1 := POperation(ts).value, POperation(ts).rest;
      assert forall t | t in ts1 :: t in ts;
      OperationsSound(ts1);
      var ops := POperations(ts1).value;
      assert ([op] + ops)[1..] == ops;
    }
  }

  // ----- What was written is parsed back

  lemma {:induction false} ValueComplete(v: CValue, rest: seq<Token>)
    ensures PValue(ValueToks(v) + rest) == Done(v, rest)
    decreases v, 1
  {
    hide ItemsToks, MembersToks, PItems, PMembers;
    var ts := ValueToks(v) + rest;
    match v {
      case CList(items) =>
        ItemsComplete(items, rest);
        assert ts[1..] == ItemsToks(items) + rest;
      case CObject(members) =>
        MembersComplete(members, rest);
        assert ts[1..] == MembersToks(members, '}') + rest;
      case CVariable(_) =>
        assert ts[1..][1..] == rest;
      case _ =>
        assert ts[1..] == rest;
    }
  }

  /** No value starts with a mark that closes a list, nor with the end. */
  lemma ValueStarts(v: CValue)
    ensures ValueToks(v) != [] && ValueToks(v)[0] != Eof && ValueToks(v)[0] != Punct(']')
  {}

  lemma {:induction false} ItemsComplete(items: seq<CValue>, rest: seq<Token>)
    ensures PItems(ItemsToks(items) + rest) == Done(items, rest)
    decreases items, 0
  {
    hide PValue, ValueToks;
    if items != [] {
      var tail := ItemsToks(items[1..]) + rest;
      Assoc(ValueToks(items[0]), ItemsToks(items[1..]), rest);
      ValueStarts(items[0]);
      ValueComplete(items[0], tail);
      ItemsComplete(items[1..], rest);
      assert [items[0]] + items[1..] == items;
    } else {
      assert (ItemsToks(items) + rest)[1..] == rest;
    }
  }

  lemma {:induction false} MemberComplete(m: CMember, rest: seq<Token>)
    ensures PMember([Name(m.key), Punct(':')] + (ValueToks(m.value) + rest)) == Done(m, rest)
    decreases m, 2
  {
    hide PValue, ValueToks;
    var ts := [Name(m.key), Punct(':')] + (ValueToks(m.value) + rest);
    assert ts[1..][1..] == ValueToks(m.value) + rest;
    ValueComplete(m.value, rest);
  }

  lemma {:induction false} MembersComplete(members: seq<CMember>, rest: seq<Token>)
    ensures PMembers(MembersToks(members, '}') + rest) == Done(members, rest)
    decreases members, 0
  {
    hide PMember, ValueToks;
    if members != [] {
      var m, ms := members[0], members[1..];
      assert [m] + ms == members;
      WriteMember(m, ms, '}', rest);
      MemberComplete(m, MembersToks(ms, '}') + rest);
      MembersComplete(ms, rest);
    } else {
      assert (MembersToks(members, '}') + rest)[1..] == rest;
    }
  }

  lemma {:induction false} ArgsComplete(members: seq<CMember>, seen: set<string>, rest: seq<Token>)
    requires DistinctKeys(members)
    requires forall m | m in members :: m.key !in seen
    ensures PArgs(MembersToks(members, ')') + rest, seen) == Done(members, rest)
  {
    hide PMember, ValueToks;
    if members != [] {
      var m, ms := members[0], members[1..];
      assert [m] + ms == members && m in members;
      WriteMember(m, ms, ')', rest);
      MemberComplete(m, MembersToks(ms, ')') + rest);
      forall n | n in ms ensures n.key !in seen + {m.key} {
        var i :| 0 <= i < |ms| && ms[i] == n;
        assert members[i + 1] == n;
      }
      ArgsComplete(ms, seen + {m.key}, rest);
    } else {
      assert (MembersToks(members, ')') + rest)[1..] == rest;
    }
  }

  lemma OptArgsComplete(args: Option<seq<CMember>>, rest: seq<Token>)
    requires args.Some? ==> DistinctKeys(args.value)
    requires Head(rest) != Punct('(')
    ensures POptArgs(ArgsPart(args) + rest) == Done(args, rest)
  {
    hide PArgs, MembersToks;
    var ts := ArgsPart(args) + rest;
    if args.Some? {
      assert ts[1..] == MembersToks(args.value, ')') + rest;
      ArgsComplete(args.value, {}, rest);
    } else {
      assert ts == rest;
    }
  }

  /** What may follow a selection: nothing that would continue it. */
  predicate EndsSelection(rest: seq<Token>) {
    Head(rest) != Punct(':') && Head(rest) != Punct('(') && Head(rest) != Punct('@') && Head(rest) != Punct('{')
  }

  lemma {:induction false} FieldComplete(s: CSelection, rest: seq<Token>)
    requires ValidSelection(s) && EndsSelection(rest)
    ensures PField(s.alias, s.name, ArgsPart(s.args) + (NestedPart(s.nested) + rest)) == Done(s, rest)
    decreases s, 0
  {
    hide POptArgs, MembersToks, SelectionsToks, DistinctKeys, PSelections;
    var ts1 := NestedPart(s.nested) + rest;
    if s.nested.CSet? {
      assert ts1[1..] == SelectionsToks(s.nested.selections) + rest;
      OptArgsComplete(s.args, ts1);
      SelectionsComplete(s.nested.selections, rest);
    } else {
      assert ts1 == rest;
      OptArgsComplete(s.args, ts1);
    }
  }

  lemma {:induction false} SelectionComplete(s: CSelection, rest: seq<Token>)
    requires ValidSelection(s) && EndsSelection(rest)
    ensures PSelection(SelectionToks(s) + rest) == Done(s, rest)
    decreases s, 1
  {
    hide PField, MembersToks, SelectionsToks, DistinctKeys, ValidSelection;
    WriteSelection(s, rest);
    FieldComplete(s, rest);
    var tail := ArgsPart(s.args) + (NestedPart(s.nested) + rest);
    var ts := SelectionToks(s) + rest;
    assert Head(tail) != Punct(':');
    if s.alias.Some? {
      assert ts == [Name(s.alias.value), Punct(':'), Name(s.name)] + tail;
      assert ts[1..][1..][1..] == tail;
    } else {
      assert ts == [Name(s.name)] + tail;
      assert ts[1..] == tail;
    }
  }

  lemma SelectionStarts(s: CSelection)
    ensures SelectionToks(s) != [] && SelectionToks(s)[0].Name?
  {}

  lemma {:induction false} SelectionsComplete(ss: seq<CSelection>, rest: seq<Token>)
    requires ValidSelections(ss)
    ensures PSelections(SelectionsToks(ss) + rest) == Done(ss, rest)
    decreases ss, 0
  {
    hide PSelection, SelectionToks, ValidSelection;
    if ss != [] {
      var tail := SelectionsToks(ss[1..]) + rest;
      Assoc(SelectionToks(ss[0]), SelectionsToks(ss[1..]), rest);
      SelectionStarts(ss[0]);
      assert EndsSelection(tail) by {
        if ss[1..] != [] {
          SelectionStarts(ss[1]);
        }
      }
      SelectionComplete(ss[0], tail);
      SelectionsComplete(ss[1..], rest);
      assert [ss[0]] + ss[1..] == ss;
    } else {
      assert (SelectionsToks(ss) + rest)[1..] == rest;
    }
  }

  lemma {:induction false} MarksComplete(n: nat, rest: seq<Token>)
    requires Head(rest) != Punct('!')
    ensures Marks(MarksToks(n) + rest) == n == |MarksToks(n)|
    ensures (MarksToks(n) + rest)[n..] == rest
  {
    if n > 0 {
      assert (MarksToks(n) + rest)[1..] == MarksToks(n - 1) + rest;
      MarksComplete(n - 1, rest);
    } else {
      assert MarksToks(n) + rest == rest;
    }
  }

  lemma {:induction false} TypeComplete(t: CType, rest: seq<Token>)
    requires Head(rest) != Punct('!')
    ensures PType(TypeToks(t) + rest) == Done(t, rest)
  {
    hide Marks, MarksToks;
    var ts := TypeToks(t) + rest;
    MarksComplete(t.marks, rest);
    match t {
      case CNamed(name, marks) =>
        assert ts[1..] == MarksToks(marks) + rest;
      case CListOf(inner, marks) =>
        var tail := [Punct(']')] + (MarksToks(marks) + rest);
        assert ts[1..] == TypeToks(inner) + tail;
        TypeComplete(inner, tail);
        assert tail[1..] == MarksToks(marks) + rest;
    }
  }

  lemma DefaultComplete(default: Option<CValue>, rest: seq<Token>)
    requires Head(rest) != Punct('=')
    ensures PDefault(DefaultToks(default) + rest) == Done(default, rest)
    ensures Head(rest) != Punct('!') ==> Head(DefaultToks(default) + rest) != Punct('!')
  {
    hide PValue, ValueToks;
    var ts := DefaultToks(default) + rest;
    if default.Some? {
      assert ts[1..] == ValueToks(default.value) + rest;
      ValueComplete(default.value, rest);
    } else {
      assert ts == rest;
    }
  }

  lemma VarDefComplete(v: CVarDef, rest: seq<Token>)
    requires Head(rest) != Punct('=') && Head(rest) != Punct('!')
    ensures PVarDef([Punct('$'), Name(v.name), Punct(':')] + (TypeToks(v.typ) + (DefaultToks(v.default) + rest))) == Done(v, rest)
  {
    hide PType, PDefault, TypeToks, DefaultToks;
    var tail := TypeToks(v.typ) + (DefaultToks(v.default) + rest);
    var ts := [Punct('$'), Name(v.name), Punct(':')] + tail;
    assert ts[1..][1..][1..] == tail;
    DefaultComplete(v.default, rest);
    TypeComplete(v.typ, DefaultToks(v.default) + rest);
  }

  lemma {:induction false} VarsComplete(vars: seq<CVarDef>, rest: seq<Token>)
    ensures PVars(VarsToks(vars) + rest) == Done(vars, rest)
  {
    hide PVarDef, TypeToks, DefaultToks;
    if vars != [] {
      var v, vs := vars[0], vars[1..];
      assert [v] + vs == vars;
      WriteVar(v, vs, rest);
      VarDefComplete(v, VarsToks(vs) + rest);
      VarsComplete(vs, rest);
    } else {
      assert (VarsToks(vars) + rest)[1..] == rest;
    }
  }

  lemma OptVarsComplete(vars: Option<seq<CVarDef>>, rest: seq<Token>)
    requires Head(rest) != Punct('(')
    ensures POptVars(VarsPart(vars) + rest) == Done(vars, rest)
  {
    hide PVars, VarsToks;
    var ts := VarsPart(vars) + rest;
    if vars.Some? {
      assert ts[1..] == VarsToks(vars.value) + rest;
      VarsComplete(vars.value, rest);
    } else {
      assert ts == rest;
    }
  }

  lemma OptNameComplete(name: Option<string>, rest: seq<Token>)
    requires !Head(rest).Name?
    ensures POptName(NamePart(name) + rest) == (name, rest)
  {
    assert name.None? ==> NamePart(name) + rest == rest;
    assert name.Some? ==> (NamePart(name) + rest)[1..] == rest;
  }

  lemma FullComplete(op: COperation, rest: seq<Token>)
    requires op.CFull? && op.selections != [] && ValidSelections(op.selections)
    ensures PFull(op.kind, NamePart(op.name) + (VarsPart(op.vars) + ([Punct('{')] + (SelectionsToks(op.selections) + rest)))) ==
            Done(op, rest)
  {
    hide POptVars, POptName, PSelections, SelectionsToks, VarsToks, ValidSelections;
    var body := [Punct('{')] + (SelectionsToks(op.selections) + rest);
    assert body[1..] == SelectionsToks(op.selections) + rest;
    SelectionsComplete(op.selections, rest);
    OptNameComplete(op.name, VarsPart(op.vars) + body);
    OptVarsComplete(op.vars, body);
  }

  lemma OperationComplete(op: COperation, rest: seq<Token>)
    requires ValidOperation(op)
    ensures POperation(OperationToks(op) + rest) == Done(op, rest)
  {
    hide PFull, PSelections, SelectionsToks, VarsToks, ValidSelections;
    var ts := OperationToks(op) + rest;
    var body := [Punct('{')] + (SelectionsToks(op.selections) + rest);
    if op.CShort? {
      assert ts == body && body[1..] == SelectionsToks(op.selections) + rest;
      SelectionsComplete(op.selections, rest);
    } else {
      WriteOperation(op, rest);
      assert ts[1..] == NamePart(op.name) + (VarsPart(op.vars) + body);
      FullComplete(op, rest);
    }
  }

  lemma {:induction false} OperationsComplete(doc: seq<COperation>)
    requires forall op | op in doc :: ValidOperation(op)
    ensures POperations(DocumentToks(doc)) == Ok(doc)
  {
    hide POperation, ValidOperation;
    if doc != [] {
      assert OperationToks(doc[0]) != [] && OperationToks(doc[0])[0] != Eof;
      hide OperationToks;
      OperationComplete(doc[0], DocumentToks(doc[1..]));
      OperationsComplete(doc[1..]);
      assert [doc[0]] + doc[1..] == doc;
    }
  }

  // ----- Both directions

  /**
   A token sequence is accepted with a document exactly when the document is allowed and
   written as that sequence. So the whole sequence is consumed, and no sequence reads in
   two ways.
   */
  lemma DocumentExact(ts: seq<Token>, doc: seq<COperation>)
    requires Eof !in ts
    ensures PDocument(ts) == Ok(doc) <==> ValidDocument(doc) && ts == DocumentToks(doc)
  {
    if PDocument(ts) == Ok(doc) {
      OperationsSound(ts);
    }
    if ValidDocument(doc) && ts == DocumentToks(doc) {
      OperationsComplete(doc);
    }
  }

  // ----- Brackets

  /** The bracket that closes `c`. */
  function Closer(c: char): char {
    if c == '(' then ')' else if c == '[' then ']' else '}'
  }

  /** Reads the brackets of a sequence against a stack of those still open. */
  function Nesting(ts: seq<Token>, open: seq<char>): Option<seq<char>> {
    if ts == [] then Some(open)
    else if ts[0] == Punct('(') || ts[0] == Punct('[') || ts[0] == Punct('{') then
      Nesting(ts[1..], [Closer(ts[0].mark)] + open)
    else if ts[0] == Punct(')') || ts[0] == Punct(']') || ts[0] == Punct('}') then
      if open != [] && open[0] == ts[0].mark then Nesting(ts[1..], open[1..]) else None
    else Nesting(ts[1..], open)
  }

  predicate Balanced(ts: seq<Token>) {
    Nesting(ts, []) == Some([])
  }

  lemma Opens(c: char, ts: seq<Token>, open: seq<char>)
    requires c == '(' || c == '[' || c == '{'
    ensures Nesting([Punct(c)] + ts, open) == Nesting(ts, [Closer(c)] + open)
  {
    assert ([Punct(c)] + ts)[1..] == ts;
  }

  lemma Closes(c: char, ts: seq<Token>, open: seq<char>)
    requires c == ')' || c == ']' || c == '}'
    ensures Nesting([Punct(c)] + ts, [c] + open) == Nesting(ts, open)
  {
    assert ([Punct(c)] + ts)[1..] == ts && ([c] + open)[1..] == open;
  }

  predicate IsBracket(t: Token) {
    t.Punct? && (t.mark == '(' || t.mark == '[' || t.mark == '{' || t.mark == ')' || t.mark == ']' || t.mark == '}')
  }

  lemma {:induction false} SkipsPlain(plain: seq<Token>, ts: seq<Token>, open: seq<char>)
    requires forall t | t in plain :: !IsBracket(t)
    ensures Nesting(plain + ts, open) == Nesting(ts, open)
  {
    if plain == [] {
      assert plain + ts == ts;
    } else {
      assert (plain + ts)[1..] == plain[1..] + ts && !IsBracket(plain[0]);
      SkipsPlain(plain[1..], ts, open);
    }
  }

  lemma {:induction false} ValueNests(v: CValue, ts: seq<Token>, open: seq<char>)
    ensures Nesting(ValueToks(v) + ts, open) == Nesting(ts, open)
    decreases v, 1
  {
    hide Nesting, ItemsToks, MembersToks;
    match v {
      case CList(items) =>
        Assoc([Punct('[')], ItemsToks(items), ts);
        Opens('[', ItemsToks(items) + ts, open);
        ItemsNest(items, ts, open);
      case CObject(members) =>
        Assoc([Punct('{')], MembersToks(members, '}'), ts);
        Opens('{', MembersToks(members, '}') + ts, open);
        MembersNest(members, '}', ts, open);
      case _ =>
        SkipsPlain(ValueToks(v), ts, open);
    }
  }

  lemma {:induction false} ItemsNest(items: seq<CValue>, ts: seq<Token>, open: seq<char>)
    ensures Nesting(ItemsToks(items) + ts, [']'] + open) == Nesting(ts, open)
    decreases items, 0
  {
    hide Nesting, ValueToks;
    if items == [] {
      Closes(']', ts, open);
    } else {
      Assoc(ValueToks(items[0]), ItemsToks(items[1..]), ts);
      ValueNests(items[0], ItemsToks(items[1..]) + ts, [']'] + open);
      ItemsNest(items[1..], ts, open);
    }
  }

  lemma {:induction false} MembersNest(members: seq<CMember>, close: char, ts: seq<Token>, open: seq<char>)
    requires close == '}' || close == ')'
    ensures Nesting(MembersToks(members, close) + ts, [close] + open) == Nesting(ts, open)
    decreases members, 0
  {
    hide Nesting, ValueToks;
    if members == [] {
      Closes(close, ts, open);
    } else {
      var m, ms := members[0], members[1..];
      assert [m] + ms == members;
      WriteMember(m, ms, close, ts);
      SkipsPlain([Name(m.key), Punct(':')], ValueToks(m.value) + (MembersToks(ms, close) + ts), [close] + open);
      ValueNests(m.value, MembersToks(ms, close) + ts, [close] + open);
      MembersNest(ms, close, ts, open);
    }
  }

  lemma {:induction false} SelectionNests(s: CSelection, ts: seq<Token>, open: seq<char>)
    ensures Nesting(SelectionToks(s) + ts, open) == Nesting(ts, open)
    decreases s, 1
  {
    hide Nesting, MembersToks, SelectionsToks;
    WriteSelection(s, ts);
    var tail := NestedPart(s.nested) + ts;
    SkipsPlain(AliasPart(s.alias), [Name(s.name)] + (ArgsPart(s.args) + tail), open);
    SkipsPlain([Name(s.name)], ArgsPart(s.args) + tail, open);
    if s.args.Some? {
      Assoc([Punct('(')], MembersToks(s.args.value, ')'), tail);
      Opens('(', MembersToks(s.args.value, ')') + tail, open);
      MembersNest(s.args.value, ')', tail, open);
    } else {
      assert ArgsPart(s.args) + tail == tail;
    }
    if s.nested.CSet? {
      Assoc([Punct('{')], SelectionsToks(s.nested.selections), ts);
      Opens('{', SelectionsToks(s.nested.selections) + ts, open);
      SelectionsNest(s.nested.selections, ts, open);
    } else {
      assert tail == ts;
    }
  }

  lemma {:induction false} SelectionsNest(ss: seq<CSelection>, ts: seq<Token>, open: seq<char>)
    ensures Nesting(SelectionsToks(ss) + ts, ['}'] + open) == Nesting(ts, open)
    decreases ss, 0
  {
    hide Nesting, SelectionToks;
    if ss == [] {
      Closes('}', ts, open);
    } else {
      Assoc(SelectionToks(ss[0]), SelectionsToks(ss[1..]), ts);
      SelectionNests(ss[0], SelectionsToks(ss[1..]) + ts, ['}'] + open);
      SelectionsNest(ss[1..], ts, open);
    }
  }

  lemma {:induction false} MarksNest(n: nat, ts: seq<Token>, open: seq<char>)
    ensures Nesting(MarksToks(n) + ts, open) == Nesting(ts, open)
  {
    if n == 0 {
      assert MarksToks(n) + ts == ts;
    } else {
      assert (MarksToks(n) + ts)[1..] == MarksToks(n - 1) + ts;
      MarksNest(n - 1, ts, open);
    }
  }

  lemma {:induction false} TypeNests(t: CType, ts: seq<Token>, open: seq<char>)
    ensures Nesting(TypeToks(t) + ts, open) == Nesting(ts, open)
  {
    hide Nesting, MarksToks;
    var after := MarksToks(t.marks) + ts;
    MarksNest(t.marks, ts, open);
    match t {
      case CNamed(name, marks) =>
        assert TypeToks(t) + ts == [Name(name)] + after;
        SkipsPlain([Name(name)], after, open);
      case CListOf(inner, marks) =>
        var tail := [Punct(']')] + after;
        assert TypeToks(t) + ts == [Punct('[')] + (TypeToks(inner) + tail);
        Opens('[', TypeToks(inner) + tail, open);
        TypeNests(inner, tail, [']'] + open);
        Closes(']', after, open);
    }
  }

  lemma {:induction false} VarsNest(vars: seq<CVarDef>, ts: seq<Token>, open: seq<char>)
    ensures Nesting(VarsToks(vars) + ts, [')'] + open) == Nesting(ts, open)
  {
    hide Nesting, TypeToks, ValueToks;
    if vars == [] {
      Closes(')', ts, open);
    } else {
      var v, vs, o := vars[0], vars[1..], [')'] + open;
      assert [v] + vs == vars;
      var tail := VarsToks(vs) + ts;
      WriteVar(v, vs, ts);
      SkipsPlain([Punct('$'), Name(v.name), Punct(':')], TypeToks(v.typ) + (DefaultToks(v.default) + tail), o);
      TypeNests(v.typ, DefaultToks(v.default) + tail, o);
      if v.default.Some? {
        Assoc([Punct('=')], ValueToks(v.default.value), tail);
        SkipsPlain([Punct('=')], ValueToks(v.default.value) + tail, o);
        ValueNests(v.default.value, tail, o);
      } else {
        assert DefaultToks(v.default) + tail == tail;
      }
      VarsNest(vs, ts, open);
    }
  }

  lemma VarsPartNests(vars: Option<seq<CVarDef>>, ts: seq<Token>)
    ensures Nesting(VarsPart(vars) + ts, []) == Nesting(ts, [])
  {
    hide Nesting, VarsToks;
    if vars.Some? {
      Assoc([Punct('(')], VarsToks(vars.value), ts);
      Opens('(', VarsToks(vars.value) + ts, []);
      VarsNest(vars.value, ts, []);
    } else {
      assert VarsPart(vars) + ts == ts;
    }
  }

  lemma OperationNests(op: COperation, ts: seq<Token>)
    ensures Nesting(OperationToks(op) + ts, []) == Nesting(ts, [])
  {
    hide Nesting, VarsToks, SelectionsToks, VarsPart, NamePart;
    var ss := SelectionsToks(op.selections) + ts;
    var body := [Punct('{')] + ss;
    Opens('{', ss, []);
    SelectionsNest(op.selections, ts, []);
    if op.CShort? {
      Assoc([Punct('{')], SelectionsToks(op.selections), ts);
    } else {
      WriteOperation(op, ts);
      SkipsPlain([Name(op.kind)], NamePart(op.name) + (VarsPart(op.vars) + body), []);
      NamePartNests(op.name, VarsPart(op.vars) + body);
      VarsPartNests(op.vars, body);
    }
  }

  lemma NamePartNests(name: Option<string>, ts: seq<Token>)
    ensures Nesting(NamePart(name) + ts, []) == Nesting(ts, [])
  {
    SkipsPlain(NamePart(name), ts, []);
  }

  lemma {:induction false} DocumentNests(doc: seq<COperation>)
    ensures Balanced(DocumentToks(doc))
  {
    hide OperationToks;
    if doc != [] {
      OperationNests(doc[0], DocumentToks(doc[1..]));
      DocumentNests(doc[1..]);
    }
  }

  /** In every accepted token sequence the braces, parentheses and brackets nest. */
  lemma AcceptedNests(ts: seq<Token>)
    requires Eof !in ts && PDocument(ts).Ok?
    ensures Balanced(ts)
  {
    DocumentExact(ts, PDocument(ts).value);
    DocumentNests(PDocument(ts).value);
  }
}
