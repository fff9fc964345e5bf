/** What the forms of a request mean, from the tokens in any layout to what is executed. */
module GraphqlForms {
  import opened Results
  import opened GraphqlLexer
  import opened GraphqlLayout
  import opened GraphqlGrammar
  import opened GraphqlDocuments

  /** Tokens that write an allowed document are read as what it says. */
  lemma Reads(src: string, num: string -> bool, doc: seq<COperation>, ts: seq<Token>, ops: seq<Operation>)
    requires IsLayout(src, ts, num) && ValidDocument(doc) && DocumentToks(doc) == ts && AbsDocument(doc) == ops
    ensures Query(src, num) == Ok(ops)
  {
    hide Query, IsLayout, ValidDocument, DocumentToks, AbsDocument;
    TextExact(src, num, ops);
  }

  lemma OneOperation(op: COperation)
    ensures DocumentToks([op]) == OperationToks(op) && AbsDocument([op]) == [AbsOperation(op)]
    ensures ValidOperation(op) ==> ValidDocument([op])
  {
    assert [op][1..] == [] && [op][..0] == [];
    assert DocumentToks([]) == [];
    hide OperationToks;
    assert OperationToks(op) + [] == OperationToks(op);
  }

  lemma OneSelection(s: CSelection)
    ensures SelectionsToks([s]) == SelectionToks(s) + [Punct('}')] && AbsSelections([s]) == [AbsSelection(s)]
    ensures ValidSelection(s) ==> ValidSelections([s])
  {
    assert [s][1..] == [] && [s][..0] == [];
    assert SelectionsToks([]) == [Punct('}')];
  }

  /** `{ s }` for one selection. */
  lemma ShortReads(src: string, num: string -> bool, s: CSelection)
    requires IsLayout(src, [Punct('{')] + SelectionToks(s) + [Punct('}')], num) && ValidSelection(s)
    ensures Query(src, num) == Ok([Operation("query", "", [], [AbsSelection(s)])])
  {
    hide IsLayout, Query, SelectionToks, AbsSelection, ValidSelection;
    OneSelection(s);
    OneOperation(CShort([s]));
    assert OperationToks(CShort([s])) == [Punct('{')] + SelectionToks(s) + [Punct('}')];
    hide DocumentToks, AbsDocument, ValidDocument;
    Reads(src, num, [CShort([s])], [Punct('{')] + SelectionToks(s) + [Punct('}')], [Operation("query", "", [], [AbsSelection(s)])]);
  }

  /** `{ f(a: v) }`, where `v` is written with the tokens `vs`. */
  lemma ArgumentReads(src: string, num: string -> bool, f: string, m: CMember, vs: seq<Token>)
    requires ValueToks(m.value) == vs
    requires IsLayout(src, [Punct('{'), Name(f), Punct('('), Name(m.key), Punct(':')] + vs + [Punct(')'), Punct('}')], num)
    ensures Query(src, num) == Ok([Operation("query", "", [], [Selection("", f, map[m.key := AbsValue(m.value)], [])])])
  {
    hide IsLayout, Query, ValueToks, AbsValue;
    var s := WithArgument(f, m);
    hide SelectionToks, AbsSelection, ValidSelection;
    assert [Punct('{')] + SelectionToks(s) + [Punct('}')] ==
           [Punct('{'), Name(f), Punct('('), Name(m.key), Punct(':')] + vs + [Punct(')'), Punct('}')];
    ShortReads(src, num, s);
  }

  lemma WithArgument(f: string, m: CMember) returns (s: CSelection)
    ensures SelectionToks(s) == [Name(f), Punct('('), Name(m.key), Punct(':')] + ValueToks(m.value) + [Punct(')')]
    ensures AbsSelection(s) == Selection("", f, map[m.key := AbsValue(m.value)], []) && ValidSelection(s)
  {
    hide ValueToks, AbsValue;
    s := CSelection(None, f, Some([m]), CLeaf);
    OneMember(m, ')');
  }

  lemma OneMember(m: CMember, close: char)
    ensures MembersToks([m], close) == [Name(m.key), Punct(':')] + ValueToks(m.value) + [Punct(close)]
    ensures AbsMembers([m]) == map[m.key := AbsValue(m.value)]
  {
    assert [m][1..] == [] && [m][..0] == [];
    assert MembersToks([], close) == [Punct(close)];
  }

  /** `{ f(a: "text") }`, the string spelled in any way: a query without a name, and the argument is that text. */
  lemma StringArgument(src: string, num: string -> bool, f: string, a: string, text: string)
    requires IsLayout(src, [Punct('{'), Name(f), Punct('('), Name(a), Punct(':'), Str(text), Punct(')'), Punct('}')], num)
    ensures Query(src, num) == Ok([Operation("query", "", [], [Selection("", f, map[a := Literal(LString(text))], [])])])
  {
    hide IsLayout, Query;
    assert [Punct('{'), Name(f), Punct('('), Name(a), Punct(':')] + [Str(text)] + [Punct(')'), Punct('}')] ==
           [Punct('{'), Name(f), Punct('('), Name(a), Punct(':'), Str(text), Punct(')'), Punct('}')];
    ArgumentReads(src, num, f, CMember(a, CString(text)), [Str(text)]);
  }

  /** The data that a bare name stands for. */
  predicate NameMeans(name: string, l: Literal) {
    (name == "true" && l == LBool(true)) || (name == "false" && l == LBool(false)) || (name == "null" && l == LNull) ||
    (name !in ["true", "false", "null"] && l == LString(name))
  }

  lemma NameMeansIt(name: string, l: Literal)
    ensures NameMeans(name, l) <==> NameLiteral(name) == l
  {}

  /** `{ f(a: name) }`: a boolean, null, or the name of an enum value. */
  lemma NameArgument(src: string, num: string -> bool, f: string, a: string, name: string, l: Literal)
    requires IsLayout(src, [Punct('{'), Name(f), Punct('('), Name(a), Punct(':'), Name(name), Punct(')'), Punct('}')], num)
    requires NameMeans(name, l)
    ensures Query(src, num) == Ok([Operation("query", "", [], [Selection("", f, map[a := Literal(l)], [])])])
  {
    NameMeansIt(name, l);
    hide IsLayout, Query, NameMeans, NameLiteral;
    assert [Punct('{'), Name(f), Punct('('), Name(a), Punct(':')] + [Name(name)] + [Punct(')'), Punct('}')] ==
           [Punct('{'), Name(f), Punct('('), Name(a), Punct(':'), Name(name), Punct(')'), Punct('}')];
    ArgumentReads(src, num, f, CMember(a, CName(name)), [Name(name)]);
  }

  /** `{ alias: f { g } }`: the first name is the alias, the second the field. */
  lemma AliasedField(src: string, num: string -> bool, alias: string, f: string, g: string)
    requires IsLayout(src, [Punct('{'), Name(alias), Punct(':'), Name(f), Punct('{'), Name(g), Punct('}'), Punct('}')], num)
    ensures Query(src, num) == Ok([Operation("query", "", [], [Selection(alias, f, map[], [Selection("", g, map[], [])])])])
  {
    hide IsLayout, Query, SelectionToks, AbsSelection, ValidSelection;
    var s := AliasedSelection(alias, f, g);
    ShortReads(src, num, s);
  }

  lemma AliasedSelection(alias: string, f: string, g: string) returns (s: CSelection)
    ensures [Punct('{')] + SelectionToks(s) + [Punct('}')] ==
            [Punct('{'), Name(alias), Punct(':'), Name(f), Punct('{'), Name(g), Punct('}'), Punct('}')]
    ensures AbsSelection(s) == Selection(alias, f, map[], [Selection("", g, map[], [])])
    ensures ValidSelection(s)
  {
    var inner := CSelection(None, g, None, CLeaf);
    OneSelection(inner);
    assert SelectionToks(inner) == [Name(g)];
    assert AbsSelection(inner) == Selection("", g, map[], []);
    assert ValidSelection(inner);
    hide SelectionsToks, AbsSelections, ValidSelections;
    s := CSelection(Some(alias), f, None, CSet([inner]));
    assert SelectionToks(s) == [Name(alias), Punct(':'), Name(f), Punct('{'), Name(g), Punct('}')];
  }

  /** `{ f(a: $v) }`: the argument is the variable. */
  lemma VariableArgument(src: string, num: string -> bool, f: string, a: string, v: string)
    requires IsLayout(src, [Punct('{'), Name(f), Punct('('), Name(a), Punct(':'), Punct('$'), Name(v), Punct(')'), Punct('}')], num)
    ensures Query(src, num) == Ok([Operation("query", "", [], [Selection("", f, map[a := Variable(v)], [])])])
  {
    hide IsLayout, Query;
    assert [Punct('{'), Name(f), Punct('('), Name(a), Punct(':')] + [Punct('$'), Name(v)] + [Punct(')'), Punct('}')] ==
           [Punct('{'), Name(f), Punct('('), Name(a), Punct(':'), Punct('$'), Name(v), Punct(')'), Punct('}')];
    ArgumentReads(src, num, f, CMember(a, CVariable(v)), [Punct('$'), Name(v)]);
  }

  /** The tokens of `($v: [T!]!)`. */
  function VariableTokens(v: string, t: string): seq<Token> {
    [Punct('('), Punct('$'), Name(v), Punct(':'), Punct('['), Name(t), Punct('!'), Punct(']'), Punct('!'), Punct(')')]
  }

  /** `kind name($v: [T!]!) { f }`: the kind, the name, the variable and its type as written. */
  lemma TypedVariable(src: string, num: string -> bool, kind: string, name: string, v: string, t: string, f: string)
    requires kind == "query" || kind == "mutation"
    requires IsLayout(src, [Name(kind), Name(name)] + VariableTokens(v, t) + [Punct('{'), Name(f), Punct('}')], num)
    ensures Query(src, num) == Ok([Operation(kind, name, [VarDef(v, "[" + t + "!]!")], [Selection("", f, map[], [])])])
  {
    var d := CVarDef(v, CListOf(CNamed(t, 1), 1), None);
    var op := CFull(kind, Some(name), Some([d]), [CSelection(None, f, None, CLeaf)]);
    TypedOperation(op, kind, name, d, t, f);
    hide IsLayout, Query, OperationToks, AbsOperation, ValidOperation, VariableTokens, DocumentToks, AbsDocument;
    OneOperation(op);
    Reads(src, num, [op], [Name(kind), Name(name)] + VariableTokens(v, t) + [Punct('{'), Name(f), Punct('}')],
          [Operation(kind, name, [VarDef(v, "[" + t + "!]!")], [Selection("", f, map[], [])])]);
  }

  lemma TypedOperation(op: COperation, kind: string, name: string, d: CVarDef, t: string, f: string)
    requires kind == "query" || kind == "mutation"
    requires op == CFull(kind, Some(name), Some([d]), [CSelection(None, f, None, CLeaf)])
    requires d.typ == CListOf(CNamed(t, 1), 1) && d.default == None
    ensures OperationToks(op) == [Name(kind), Name(name)] + VariableTokens(d.name, t) + [Punct('{'), Name(f), Punct('}')]
    ensures AbsOperation(op) == Operation(kind, name, [VarDef(d.name, "[" + t + "!]!")], [Selection("", f, map[], [])])
    ensures ValidOperation(op)
  {
    var s := CSelection(None, f, None, CLeaf);
    OneSelection(s);
    OneVariable(d, t);
    assert SelectionToks(s) == [Name(f)];
    hide VarsToks, AbsVars, VariableTokens, SelectionsToks, AbsSelections, ValidSelections;
    assert AbsSelection(s) == Selection("", f, map[], []);
  }

  lemma OneMark()
    ensures MarksToks(1) == [Punct('!')] && MarksText(1) == "!"
  {
    assert MarksToks(0) == [] && MarksText(0) == "";
  }

  lemma OneVariable(d: CVarDef, t: string)
    requires d.typ == CListOf(CNamed(t, 1), 1) && d.default == None
    ensures [Punct('(')] + VarsToks([d]) == VariableTokens(d.name, t)
    ensures AbsVars([d]) == [VarDef(d.name, "[" + t + "!]!")]
  {
    hide MarksToks, MarksText;
    OneMark();
    assert [d][1..] == [] && [d][..0] == [];
    assert TypeToks(d.typ) == [Punct('['), Name(t), Punct('!'), Punct(']'), Punct('!')] by {
      assert TypeToks(CNamed(t, 1)) == [Name(t), Punct('!')];
    }
    assert TypeText(d.typ) == "[" + t + "!]!" by {
      assert TypeText(CNamed(t, 1)) == t + "!";
    }
    assert VarsToks([]) == [Punct(')')] && AbsVars([]) == [];
    hide TypeToks, TypeText;
  }

  /** Of the members of an object with one key the last is kept. */
  lemma {:induction false} LastMemberWins(members: seq<CMember>, i: nat)
    requires i < |members| && forall j | i < j < |members| :: members[j].key != members[i].key
    ensures members[i].key in AbsMembers(members) && AbsMembers(members)[members[i].key] == AbsValue(members[i].value)
  {
    hide AbsValue;
    var front := members[..|members| - 1];
    if i < |front| {
      LastMemberWins(front, i);
    }
  }
}
