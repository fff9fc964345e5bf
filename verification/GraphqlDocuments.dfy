/**
 ParseQuery of src/graphql/resolvers.go: from the text of a document to its operations,
 which texts it accepts, and that it reads back every well-formed document.
 */
module GraphqlDocuments {
  import opened Results
  import opened Text
  import opened GraphqlLexer
  import opened GraphqlLayout
  import opened GraphqlGrammar
  import opened GraphqlExactness
  import GraphqlParser

  // ----- Reference and implementation

  /** What ParseQuery returns for a text. */
  function Query(src: string, num: string -> bool): Result<seq<Operation>, ParseError> {
    if TrimSpace(src) == "" then Err(EmptyQuery)
    else match Tokens(src, num)
      case Err(e) => Err(BadToken(e))
      case Ok(ts) =>
        match PDocument(ts)
        case Err(e) => Err(e)
        case Ok(doc) => Ok(AbsDocument(doc))
  }

  function AfterOperations(before: seq<COperation>, r: Result<seq<COperation>, ParseError>): Result<seq<COperation>, ParseError> {
    match r
    case Ok(ops) => Ok(before + ops)
    case Err(e) => Err(e)
  }

  lemma OperationsStep(before: seq<COperation>, ts: seq<Token>)
    requires Head(ts) != Eof
    ensures POperation(ts).Done? ==>
              AfterOperations(before, POperations(ts)) ==
              AfterOperations(before + [POperation(ts).value], POperations(POperation(ts).rest)) &&
              AbsDocument(before + [POperation(ts).value]) == AbsDocument(before) + [AbsOperation(POperation(ts).value)]
    ensures POperation(ts).Fail? ==> AfterOperations(before, POperations(ts)) == Err(POperation(ts).error)
  {
    hide POperation, AbsOperation;
    if POperation(ts).Done? {
      var op, rest := POperation(ts).value, POperations(POperation(ts).rest);
      assert (before + [op])[..|before|] == before;
      if rest.Ok? {
        assert before + ([op] + rest.value) == before + [op] + rest.value;
      }
    }
  }

  method ParseQuery(src: string, num: string -> bool) returns (r: Result<seq<Operation>, ParseError>)
    ensures r == Query(src, num)
  {
    hide POperation, AbsOperation, TrimSpace, Tokens;
    if TrimSpace(src) == "" {
      return Err(EmptyQuery);
    }
    var lexed := Lex(src, num);
    if lexed.Err? {
      return Err(BadToken(lexed.error));
    }
    ghost var ts := Tokens(src, num).value;
    NoEndMarker(src, num);
    var p := new GraphqlParser.Parser(lexed.value[..|lexed.value| - 1]);
    ghost var read: seq<COperation> := [];
    var operations: seq<Operation> := [];
    assert AfterOperations([], POperations(ts)) == POperations(ts) by {
      assert POperations(ts).Ok? ==> [] + POperations(ts).value == POperations(ts).value;
    }
    while p.Peek() != Eof
      invariant p.Valid()
      invariant operations == AbsDocument(read)
      invariant POperations(ts) == AfterOperations(read, POperations(p.Rest()))
      decreases |p.Rest()|
    {
      ghost var here := p.Rest();
      OperationsStep(read, here);
      var op :- p.ParseOperation();
      operations := operations + [op];
      read := read + [POperation(here).value];
    }
    assert read + [] == read;
    if |operations| == 0 {
      return Err(NoOperation);
    }
    return Ok(operations);
  }

  lemma NoEndMarker(src: string, num: string -> bool)
    requires Tokens(src, num).Ok?
    ensures Eof !in Tokens(src, num).value
  {
    TokensAreValid(src, num);
  }

  // ----- The white space test in front

  /** Which error a text gives that has no document in it: white space alone, bad tokens, or no tokens at all. */
  lemma ErrorsOfText(src: string, num: string -> bool)
    ensures (forall i | 0 <= i < |src| :: IsSpace(src[i])) ==> Query(src, num) == Err(EmptyQuery)
    ensures (exists i :: 0 <= i < |src| && !IsSpace(src[i])) ==>
              (Tokens(src, num).Err? ==> Query(src, num) == Err(BadToken(Tokens(src, num).error))) &&
              (Tokens(src, num) == Ok([]) ==> Query(src, num) == Err(NoOperation))
  {
    hide IsSpace, Tokens, TrimSpace;
    BlankIff(src);
    assert POperations([]) == Ok([]);
  }

  lemma BlankIff(s: string)
    ensures TrimSpace(s) == "" <==> forall i | 0 <= i < |s| :: IsSpace(s[i])
  {
    hide IsSpace, TrimSpace;
    TrimIff(s, "");
    if forall i | 0 <= i < |s| :: IsSpace(s[i]) {
      assert IsMiddle(s, "", |s|, |s|);
    }
  }

  lemma {:induction false} TrimLeftKeeps(s: string, i: nat)
    requires i < |s| && !IsSpace(s[i])
    ensures exists j :: 0 <= j < |TrimLeft(s)| && !IsSpace(TrimLeft(s)[j])
  {
    if IsSpace(s[0]) {
      TrimLeftKeeps(s[1..], i - 1);
      assert TrimLeft(s) == TrimLeft(s[1..]);
    } else {
      assert TrimLeft(s) == s;
    }
  }

  lemma {:induction false} TrimRightKeeps(s: string, i: nat)
    requires i < |s| && !IsSpace(s[i])
    ensures TrimRight(s) != ""
  {
    if IsSpace(s[|s| - 1]) {
      TrimRightKeeps(s[..|s| - 1], i);
    }
  }

  lemma NotBlank(s: string, i: nat)
    requires i < |s| && !IsSpace(s[i])
    ensures TrimSpace(s) != ""
  {
    TrimLeftKeeps(s, i);
    var j :| 0 <= j < |TrimLeft(s)| && !IsSpace(TrimLeft(s)[j]);
    TrimRightKeeps(TrimLeft(s), j);
  }

  lemma {:induction false} SpacesHoldNoToken(s: string, num: string -> bool)
    requires forall i | 0 <= i < |s| :: IsSpace(s[i])
    requires Tokens(s, num).Ok?
    ensures Tokens(s, num).value == []
  {
    hide StringLiteral, Run;
    if s != "" {
      assert First(s, num) == Blank(1);
      SpacesHoldNoToken(s[1..], num);
    }
  }

  /** The test for white space refuses no document that would otherwise parse. */
  lemma TokensAreNotBlank(src: string, num: string -> bool)
    requires Tokens(src, num).Ok? && Tokens(src, num).value != []
    ensures TrimSpace(src) != ""
  {
    if forall i | 0 <= i < |src| :: IsSpace(src[i]) {
      SpacesHoldNoToken(src, num);
    } else {
      var i :| 0 <= i < |src| && !IsSpace(src[i]);
      NotBlank(src, i);
    }
  }

  // ----- Which texts are accepted

  /**
   A text is accepted with a list of operations exactly when it lexes to the tokens of
   some allowed document of which the operations are what the parser keeps.
   */
  lemma QueryExact(src: string, num: string -> bool, ops: seq<Operation>)
    ensures Query(src, num) == Ok(ops) <==>
            exists doc :: ValidDocument(doc) && Tokens(src, num) == Ok(DocumentToks(doc)) && AbsDocument(doc) == ops
  {
    if Tokens(src, num).Ok? {
      var ts := Tokens(src, num).value;
      NoEndMarker(src, num);
      if Query(src, num) == Ok(ops) {
        DocumentExact(ts, PDocument(ts).value);
      }
      forall doc | ValidDocument(doc) && ts == DocumentToks(doc)
        ensures Query(src, num) == Ok(AbsDocument(doc))
      {
        DocumentExact(ts, doc);
        DocumentHasTokens(doc);
        TokensAreNotBlank(src, num);
      }
    }
  }

  lemma DocumentHasTokens(doc: seq<COperation>)
    requires doc != []
    ensures DocumentToks(doc) != []
  {
    assert OperationToks(doc[0]) != [];
  }

  /** A text is accepted with a result exactly when it is a layout of an allowed document that says it. */
  lemma TextExact(src: string, num: string -> bool, ops: seq<Operation>)
    ensures Query(src, num) == Ok(ops) <==>
            exists doc :: ValidDocument(doc) && IsLayout(src, DocumentToks(doc), num) && ops == AbsDocument(doc)
  {
    hide Query, IsLayout, ValidDocument, AbsDocument;
    QueryExact(src, num, ops);
    forall doc ensures Tokens(src, num) == Ok(DocumentToks(doc)) <==> IsLayout(src, DocumentToks(doc), num) {
      TokensIff(src, DocumentToks(doc), num);
    }
  }

  // ----- Well-formed results, and how to write them down

  predicate WellFormedValue(v: Value, num: string -> bool) {
    match v
    case Variable(name) => IsName(name)
    case Literal(LNumber(text)) => IsNumber(text, num)
    case Literal(_) => true
    case List(items) => forall i | 0 <= i < |items| :: WellFormedValue(items[i], num)
    case Object(members) => forall k | k in members :: IsName(k) && WellFormedValue(members[k], num)
  }

  predicate WellFormedSelection(s: Selection, num: string -> bool) {
    (s.alias != "" ==> IsName(s.alias)) && IsName(s.name) &&
    WellFormedValue(Object(s.args), num) &&
    forall i | 0 <= i < |s.selections| :: WellFormedSelection(s.selections[i], num)
  }

  predicate WellFormedType(t: CType) {
    match t
    case CNamed(name, _) => IsName(name)
    case CListOf(inner, _) => WellFormedType(inner)
  }

  ghost predicate WellFormedVar(v: VarDef) {
    IsName(v.name) && exists t :: WellFormedType(t) && TypeText(t) == v.typ
  }

  ghost predicate WellFormedOperation(op: Operation, num: string -> bool) {
    (op.kind == "query" || op.kind == "mutation") &&
    (op.name != "" ==> IsName(op.name)) &&
    (forall v | v in op.vars :: WellFormedVar(v)) &&
    op.selections != [] &&
    forall s | s in op.selections :: WellFormedSelection(s, num)
  }

  ghost predicate WellFormed(ops: seq<Operation>, num: string -> bool) {
    ops != [] && forall op | op in ops :: WellFormedOperation(op, num)
  }

  ghost function PrintValue(v: Value): CValue
    decreases v, 1, 0
  {
    match v
    case Variable(name) => CVariable(name)
    case Literal(LString(text)) => CString(text)
    case Literal(LNumber(text)) => CNumber(text)
    case Literal(LBool(b)) => CName(if b then "true" else "false")
    case Literal(LNull) => CName("null")
    case List(items) => CList(PrintItems(items))
    case Object(members) => CObject(PrintMembers(v, members))
  }

  ghost function PrintItems(items: seq<Value>): seq<CValue>
    decreases items, 0, 0
  {
    if items == [] then [] else PrintItems(items[..|items| - 1]) + [PrintValue(items[|items| - 1])]
  }

  ghost function AnyKey(m: map<string, Value>): (k: string)
    requires m != map[]
    ensures k in m
  {
    var k :| k in m; k
  }

  /** The members of `whole` that are in `part`, in some order. */
  ghost function PrintMembers(whole: Value, part: map<string, Value>): seq<CMember>
    requires whole.Object? && part.Keys <= whole.members.Keys
    requires forall k | k in part :: part[k] == whole.members[k]
    decreases whole, 0, |part|
  {
    if part == map[] then []
    else
      var k := AnyKey(part);
      PrintMembers(whole, part - {k}) + [CMember(k, PrintValue(part[k]))]
  }

  ghost function PrintSelection(s: Selection): CSelection
    decreases s, 1
  {
    CSelection(
      if s.alias != "" then Some(s.alias) else None,
      s.name,
      if s.args != map[] then Some(PrintMembers(Object(s.args), s.args)) else None,
      if s.selections != [] then CSet(PrintSelections(s.selections)) else CLeaf)
  }

  ghost function PrintSelections(ss: seq<Selection>): seq<CSelection>
    decreases ss, 0
  {
    if ss == [] then [] else PrintSelections(ss[..|ss| - 1]) + [PrintSelection(ss[|ss| - 1])]
  }

  ghost function PrintVars(vars: seq<VarDef>): seq<CVarDef>
    requires forall v | v in vars :: WellFormedVar(v)
  {
    if vars == [] then []
    else
      var last := vars[|vars| - 1];
      assert WellFormedVar(last);
      var t :| WellFormedType(t) && TypeText(t) == last.typ;
      PrintVars(vars[..|vars| - 1]) + [CVarDef(last.name, t, None)]
  }

  ghost function PrintOperation(op: Operation): COperation
    requires forall v | v in op.vars :: WellFormedVar(v)
  {
    CFull(op.kind, if op.name != "" then Some(op.name) else None,
          if op.vars != [] then Some(PrintVars(op.vars)) else None, PrintSelections(op.selections))
  }

  /** Every declared type is the text of some type. */
  ghost predicate Printable(ops: seq<Operation>) {
    forall op | op in ops :: forall v | v in op.vars :: WellFormedVar(v)
  }

  ghost function PrintDocument(ops: seq<Operation>): seq<COperation>
    requires Printable(ops)
  {
    if ops == [] then [] else PrintDocument(ops[..|ops| - 1]) + [PrintOperation(ops[|ops| - 1])]
  }

  // ----- A construct is written with valid tokens exactly when its parts are

  predicate AllValid(ts: seq<Token>, num: string -> bool) {
    forall t | t in ts :: ValidToken(t, num)
  }

  lemma AllValidJoin(a: seq<Token>, b: seq<Token>, num: string -> bool)
    ensures AllValid(a + b, num) <==> AllValid(a, num) && AllValid(b, num)
  {
    assert forall t | t in a :: t in a + b;
    assert forall t | t in b :: t in a + b;
  }

  lemma AllValidOne(t: Token, num: string -> bool)
    ensures AllValid([t], num) <==> ValidToken(t, num)
  {
    assert t in [t];
  }

  lemma AllValidNone(num: string -> bool)
    ensures AllValid([], num)
  {}

  lemma InCons<T>(xs: seq<T>)
    requires xs != []
    ensures xs[0] in xs
    ensures forall x: T :: x in xs <==> x == xs[0] || x in xs[1..]
  {
    assert xs == [xs[0]] + xs[1..];
  }

  lemma {:induction false} ItemsLexable(items: seq<CValue>, num: string -> bool)
    ensures AllValid(ItemsToks(items), num) <==> forall v | v in items :: AllValid(ValueToks(v), num)
  {
    hide ValueToks, AllValid;
    if items == [] {
      AllValidOne(Punct(']'), num);
    } else {
      ItemsLexable(items[1..], num);
      AllValidJoin(ValueToks(items[0]), ItemsToks(items[1..]), num);
      InCons(items);
    }
  }

  predicate LexableMember(m: CMember, num: string -> bool) {
    IsName(m.key) && AllValid(ValueToks(m.value), num)
  }

  lemma {:induction false} MembersLexable(members: seq<CMember>, close: char, num: string -> bool)
    requires IsPunctuation(close)
    ensures AllValid(MembersToks(members, close), num) <==> forall m | m in members :: LexableMember(m, num)
  {
    hide ValueToks, AllValid, IsName;
    if members == [] {
      AllValidOne(Punct(close), num);
    } else {
      var m, ms := members[0], members[1..];
      MembersLexable(ms, close, num);
      AllValidJoin(ValueToks(m.value), MembersToks(ms, close), num);
      AllValidJoin([Name(m.key), Punct(':')], ValueToks(m.value) + MembersToks(ms, close), num);
      KeyLexable(m.key, num);
      InCons(members);
    }
  }

  lemma KeyLexable(key: string, num: string -> bool)
    ensures AllValid([Name(key), Punct(':')], num) <==> IsName(key)
  {
    hide IsName;
    assert Name(key) in [Name(key), Punct(':')];
  }

  predicate LexableSelection(s: CSelection, num: string -> bool) {
    AllValid(SelectionToks(s), num) && ValidSelection(s)
  }

  lemma SelectionLexable(s: CSelection, num: string -> bool)
    ensures AllValid(SelectionToks(s), num) <==>
            (s.alias.Some? ==> IsName(s.alias.value)) && IsName(s.name) &&
            (s.args.Some? ==> AllValid(MembersToks(s.args.value, ')'), num)) &&
            (s.nested.CSet? ==> AllValid(SelectionsToks(s.nested.selections), num))
  {
    hide AllValid, MembersToks, SelectionsToks, IsName;
    var a, g, d := AliasPart(s.alias), ArgsPart(s.args), NestedPart(s.nested);
    assert SelectionToks(s) == a + ([Name(s.name)] + (g + d));
    AllValidJoin(a, [Name(s.name)] + (g + d), num);
    AllValidJoin([Name(s.name)], g + d, num);
    AllValidJoin(g, d, num);
    AllValidOne(Name(s.name), num);
    AllValidNone(num);
    if s.alias.Some? {
      KeyLexable(s.alias.value, num);
    }
    if s.args.Some? {
      AllValidOne(Punct('('), num);
      AllValidJoin([Punct('(')], MembersToks(s.args.value, ')'), num);
    }
    if s.nested.CSet? {
      AllValidOne(Punct('{'), num);
      AllValidJoin([Punct('{')], SelectionsToks(s.nested.selections), num);
    }
  }

  lemma {:induction false} SelectionsLexable(ss: seq<CSelection>, num: string -> bool)
    ensures AllValid(SelectionsToks(ss), num) && ValidSelections(ss) <==> forall s | s in ss :: LexableSelection(s, num)
  {
    hide SelectionToks, AllValid, ValidSelection;
    if ss == [] {
      AllValidOne(Punct('}'), num);
    } else {
      SelectionsLexable(ss[1..], num);
      AllValidJoin(SelectionToks(ss[0]), SelectionsToks(ss[1..]), num);
      InCons(ss);
    }
  }

  lemma {:induction false} MarksLexable(n: nat, num: string -> bool)
    ensures AllValid(MarksToks(n), num)
  {
    if n > 0 {
      MarksLexable(n - 1, num);
      AllValidOne(Punct('!'), num);
      AllValidJoin([Punct('!')], MarksToks(n - 1), num);
    }
  }

  lemma {:induction false} TypeLexable(t: CType, num: string -> bool)
    ensures AllValid(TypeToks(t), num) <==> WellFormedType(t)
  {
    hide AllValid, IsName, MarksToks;
    MarksLexable(t.marks, num);
    match t {
      case CNamed(name, marks) =>
        AllValidOne(Name(name), num);
        AllValidJoin([Name(name)], MarksToks(marks), num);
      case CListOf(inner, marks) =>
        TypeLexable(inner, num);
        AllValidOne(Punct('['), num);
        AllValidOne(Punct(']'), num);
        AllValidJoin([Punct(']')], MarksToks(marks), num);
        AllValidJoin(TypeToks(inner), [Punct(']')] + MarksToks(marks), num);
        AllValidJoin([Punct('[')], TypeToks(inner) + ([Punct(']')] + MarksToks(marks)), num);
    }
  }

  predicate LexableVar(v: CVarDef, num: string -> bool) {
    IsName(v.name) && WellFormedType(v.typ) && AllValid(DefaultToks(v.default), num)
  }

  lemma {:induction false} VarsLexable(vars: seq<CVarDef>, num: string -> bool)
    ensures AllValid(VarsToks(vars), num) <==> forall v | v in vars :: LexableVar(v, num)
  {
    hide AllValid, IsName, TypeToks, DefaultToks, WellFormedType;
    if vars == [] {
      AllValidOne(Punct(')'), num);
    } else {
      var v, vs := vars[0], vars[1..];
      var d, t := DefaultToks(v.default), TypeToks(v.typ);
      VarsLexable(vs, num);
      TypeLexable(v.typ, num);
      AllValidJoin(d, VarsToks(vs), num);
      AllValidJoin(t, d + VarsToks(vs), num);
      AllValidJoin([Punct('$'), Name(v.name), Punct(':')], t + (d + VarsToks(vs)), num);
      assert [Punct('$'), Name(v.name), Punct(':')] == [Punct('$')] + [Name(v.name), Punct(':')];
      AllValidJoin([Punct('$')], [Name(v.name), Punct(':')], num);
      AllValidOne(Punct('$'), num);
      KeyLexable(v.name, num);
      InCons(vars);
    }
  }

  predicate LexableOperation(op: COperation, num: string -> bool) {
    AllValid(OperationToks(op), num) && ValidOperation(op)
  }

  lemma OperationLexable(op: COperation, num: string -> bool)
    ensures LexableOperation(op, num) <==>
            (op.CFull? ==>
               (op.kind == "query" || op.kind == "mutation") &&
               (op.name.Some? ==> IsName(op.name.value)) &&
               (op.vars.Some? ==> AllValid(VarsToks(op.vars.value), num))) &&
            op.selections != [] && AllValid(SelectionsToks(op.selections), num) && ValidSelections(op.selections)
  {
    hide AllValid, VarsToks, SelectionsToks, ValidSelections;
    AllValidOne(Punct('{'), num);
    AllValidJoin([Punct('{')], SelectionsToks(op.selections), num);
    if op.CFull? {
      var n, v, b := NamePart(op.name), VarsPart(op.vars), [Punct('{')] + SelectionsToks(op.selections);
      assert OperationToks(op) == [Name(op.kind)] + (n + (v + b));
      AllValidOne(Name(op.kind), num);
      AllValidJoin([Name(op.kind)], n + (v + b), num);
      AllValidJoin(n, v + b, num);
      AllValidJoin(v, b, num);
      AllValidNone(num);
      if op.name.Some? {
        AllValidOne(Name(op.name.value), num);
      }
      if op.vars.Some? {
        AllValidOne(Punct('('), num);
        AllValidJoin([Punct('(')], VarsToks(op.vars.value), num);
      }
    }
  }

  lemma {:induction false} DocumentLexable(doc: seq<COperation>, num: string -> bool)
    requires doc != []
    ensures AllValid(DocumentToks(doc), num) && ValidDocument(doc) <==> forall op | op in doc :: LexableOperation(op, num)
  {
    OperationsLexable(doc, num);
  }

  lemma {:induction false} OperationsLexable(doc: seq<COperation>, num: string -> bool)
    ensures AllValid(DocumentToks(doc), num) && (forall op | op in doc :: ValidOperation(op)) <==>
            forall op | op in doc :: LexableOperation(op, num)
  {
    hide AllValid, OperationToks, ValidOperation;
    if doc == [] {
      AllValidNone(num);
    } else {
      OperationsLexable(doc[1..], num);
      AllValidJoin(OperationToks(doc[0]), DocumentToks(doc[1..]), num);
      InCons(doc);
    }
  }

  // ----- Writing a well-formed result down loses nothing

  lemma ValueLexable(v: CValue, num: string -> bool)
    ensures AllValid(ValueToks(v), num) <==>
            match v
            case CVariable(name) => IsName(name)
            case CString(_) => true
            case CNumber(text) => IsNumber(text, num)
            case CName(text) => IsName(text)
            case CList(items) => AllValid(ItemsToks(items), num)
            case CObject(members) => AllValid(MembersToks(members, '}'), num)
  {
    hide AllValid, ItemsToks, MembersToks, IsName, IsNumber;
    match v {
      case CList(items) =>
        AllValidOne(Punct('['), num);
        AllValidJoin([Punct('[')], ItemsToks(items), num);
      case CObject(members) =>
        AllValidOne(Punct('{'), num);
        AllValidJoin([Punct('{')], MembersToks(members, '}'), num);
      case CVariable(name) =>
        AllValidOne(Punct('$'), num);
        AllValidOne(Name(name), num);
        AllValidJoin([Punct('$')], [Name(name)], num);
        assert [Punct('$')] + [Name(name)] == [Punct('$'), Name(name)];
      case _ =>
        AllValidOne(ValueToks(v)[0], num);
    }
  }

  lemma {:induction false} PrintedValue(v: Value, num: string -> bool)
    requires WellFormedValue(v, num)
    ensures AbsValue(PrintValue(v)) == v
    ensures AllValid(ValueToks(PrintValue(v)), num)
    decreases v, 1, 0
  {
    hide AllValid, ItemsToks, MembersToks, ValueToks;
    ValueLexable(PrintValue(v), num);
    match v {
      case List(items) =>
        PrintedItems(items, num);
        ItemsLexable(PrintItems(items), num);
      case Object(members) =>
        PrintedMembers(v, members, num);
        MembersLexable(PrintMembers(v, members), '}', num);
      case _ =>
    }
  }

  lemma {:induction false} PrintedItems(items: seq<Value>, num: string -> bool)
    requires forall i | 0 <= i < |items| :: WellFormedValue(items[i], num)
    ensures AbsItems(PrintItems(items)) == items
    ensures forall c | c in PrintItems(items) :: AllValid(ValueToks(c), num)
    decreases items, 0, 0
  {
    hide WellFormedValue, ValueToks, AbsValue, PrintValue, AllValid;
    if items != [] {
      var front, last := items[..|items| - 1], items[|items| - 1];
      PrintedItems(front, num);
      PrintedValue(last, num);
      assert PrintItems(items)[..|PrintItems(front)|] == PrintItems(front);
    }
  }

  lemma NotAmong(ms: seq<CMember>, k: string)
    requires k !in AbsMembers(ms)
    ensures forall i | 0 <= i < |ms| :: ms[i].key != k
  {
    hide AbsValue;
  }

  lemma StillDistinct(ms: seq<CMember>, m: CMember)
    requires DistinctKeys(ms) && forall i | 0 <= i < |ms| :: ms[i].key != m.key
    ensures DistinctKeys(ms + [m])
  {}

  lemma PushMember(ms: seq<CMember>, m: CMember, k: string, part: map<string, Value>)
    requires k in part && m.key == k && AbsValue(m.value) == part[k]
    requires AbsMembers(ms) == part - {k} && DistinctKeys(ms)
    ensures AbsMembers(ms + [m]) == part && DistinctKeys(ms + [m])
  {
    NotAmong(ms, k);
    hide AbsValue, AbsMembers, DistinctKeys;
    StillDistinct(ms, m);
    GraphqlParser.AbsMembersPush(ms, m);
    assert (part - {k})[k := part[k]] == part;
  }

  lemma {:induction false} PrintedMembers(whole: Value, part: map<string, Value>, num: string -> bool)
    requires whole.Object? && part.Keys <= whole.members.Keys
    requires forall k | k in part :: part[k] == whole.members[k]
    requires WellFormedValue(whole, num)
    ensures AbsMembers(PrintMembers(whole, part)) == part
    ensures DistinctKeys(PrintMembers(whole, part))
    ensures forall m | m in PrintMembers(whole, part) :: LexableMember(m, num)
    decreases whole, 0, |part|
  {
    if part != map[] {
      hide ValueToks, AbsValue, AbsMembers, PrintValue, AllValid, AnyKey, DistinctKeys, IsName;
      var k := AnyKey(part);
      PrintedMembers(whole, part - {k}, num);
      PrintedValue(whole.members[k], num);
      PushMember(PrintMembers(whole, part - {k}), CMember(k, PrintValue(part[k])), k, part);
    }
  }

  lemma {:induction false} PrintedSelection(s: Selection, num: string -> bool)
    requires WellFormedSelection(s, num)
    ensures AbsSelection(PrintSelection(s)) == s
    ensures LexableSelection(PrintSelection(s), num)
    decreases s, 1
  {
    hide AllValid, MembersToks, SelectionsToks, IsName, AbsMembers, PrintMembers, WellFormedValue, DistinctKeys, SelectionToks;
    PrintedMembers(Object(s.args), s.args, num);
    MembersLexable(PrintMembers(Object(s.args), s.args), ')', num);
    PrintedSelections(s.selections, num);
    SelectionsLexable(PrintSelections(s.selections), num);
    SelectionLexable(PrintSelection(s), num);
  }

  lemma AbsSelectionsPush(ss: seq<CSelection>, s: CSelection)
    ensures AbsSelections(ss + [s]) == AbsSelections(ss) + [AbsSelection(s)]
  {
    hide AbsSelection;
    assert (ss + [s])[..|ss|] == ss;
  }

  lemma {:induction false} PrintedSelections(ss: seq<Selection>, num: string -> bool)
    requires forall i | 0 <= i < |ss| :: WellFormedSelection(ss[i], num)
    ensures AbsSelections(PrintSelections(ss)) == ss
    ensures forall c | c in PrintSelections(ss) :: LexableSelection(c, num)
    decreases ss, 0
  {
    hide LexableSelection, WellFormedSelection, AbsSelection, AbsSelections, PrintSelection;
    if ss == [] {
      AbsNoSelections();
    } else {
      var front, last := ss[..|ss| - 1], ss[|ss| - 1];
      PrintedSelections(front, num);
      PrintedSelection(last, num);
      AbsSelectionsPush(PrintSelections(front), PrintSelection(last));
    }
  }

  lemma AbsNoSelections()
    ensures AbsSelections([]) == []
  {}

  lemma {:induction false} PrintedVars(vars: seq<VarDef>, num: string -> bool)
    requires forall v | v in vars :: WellFormedVar(v)
    ensures AbsVars(PrintVars(vars)) == vars
    ensures forall c | c in PrintVars(vars) :: LexableVar(c, num)
  {
    if vars != [] {
      hide IsName, WellFormedType, TypeText;
      var front, last := vars[..|vars| - 1], vars[|vars| - 1];
      PrintedVars(front, num);
      assert WellFormedVar(last);
      assert PrintVars(vars)[..|PrintVars(front)|] == PrintVars(front);
    }
  }

  lemma PrintedOperation(op: Operation, num: string -> bool)
    requires WellFormedOperation(op, num)
    ensures AbsOperation(PrintOperation(op)) == op
    ensures LexableOperation(PrintOperation(op), num)
  {
    hide LexableOperation, LexableSelection, LexableVar, WellFormedVar, WellFormedSelection, AllValid,
         PrintSelections, PrintVars, AbsSelections, AbsVars, VarsToks, SelectionsToks, ValidSelections;
    PrintedVars(op.vars, num);
    VarsLexable(PrintVars(op.vars), num);
    assert forall i | 0 <= i < |op.selections| :: op.selections[i] in op.selections;
    PrintedSelections(op.selections, num);
    SelectionsLexable(PrintSelections(op.selections), num);
    AbsNoSelections();
    OperationLexable(PrintOperation(op), num);
  }

  lemma {:induction false} PrintedDocument(ops: seq<Operation>, num: string -> bool)
    requires forall op | op in ops :: WellFormedOperation(op, num)
    ensures Printable(ops) && AbsDocument(PrintDocument(ops)) == ops
    ensures forall c | c in PrintDocument(ops) :: LexableOperation(c, num)
  {
    hide LexableOperation, WellFormedSelection, AbsOperation, PrintOperation;
    if ops != [] {
      var front, last := ops[..|ops| - 1], ops[|ops| - 1];
      PrintedDocument(front, num);
      assert WellFormedOperation(last, num);
      PrintedOperation(last, num);
      assert Printable(ops);
      assert PrintDocument(ops)[..|PrintDocument(front)|] == PrintDocument(front);
    }
  }

  /**
   Round trip: any well-formed list of operations, written down in any way, parses back to
   that list of operations; and there is a way to write it down.
   */
  lemma RoundTrip(ops: seq<Operation>, src: string, num: string -> bool)
    requires WellFormed(ops, num)
    ensures Printable(ops)
    ensures IsLayout(src, DocumentToks(PrintDocument(ops)), num) ==> Query(src, num) == Ok(ops)
    ensures exists s :: IsLayout(s, DocumentToks(PrintDocument(ops)), num)
  {
    hide IsLayout, Query;
    PrintedDocument(ops, num);
    TextExact(src, num, ops);
    DocumentLexable(PrintDocument(ops), num);
    var text := LayItOut(DocumentToks(PrintDocument(ops)), num);
  }

  // ----- Only well-formed results are ever returned

  lemma {:induction false} ValueIsWellFormed(v: CValue, num: string -> bool)
    requires AllValid(ValueToks(v), num)
    ensures WellFormedValue(AbsValue(v), num)
    decreases v, 1
  {
    hide AllValid, ItemsToks, MembersToks, ValueToks, AbsMembers, AbsItems;
    ValueLexable(v, num);
    match v {
      case CList(items) =>
        ItemsLexable(items, num);
        ItemsAreWellFormed(items, num);
      case CObject(members) =>
        MembersLexable(members, '}', num);
        MembersAreWellFormed(members, num);
      case _ =>
    }
  }

  lemma {:induction false} ItemsAreWellFormed(items: seq<CValue>, num: string -> bool)
    requires forall v | v in items :: AllValid(ValueToks(v), num)
    ensures forall i | 0 <= i < |items| :: WellFormedValue(AbsItems(items)[i], num)
    decreases items, 0
  {
    hide AllValid, ValueToks, AbsValue, WellFormedValue;
    if items != [] {
      ItemsAreWellFormed(items[..|items| - 1], num);
      ValueIsWellFormed(items[|items| - 1], num);
    }
  }

  lemma {:induction false} MembersAreWellFormed(members: seq<CMember>, num: string -> bool)
    requires forall m | m in members :: LexableMember(m, num)
    ensures WellFormedValue(Object(AbsMembers(members)), num)
    decreases members, 0
  {
    hide AllValid, ValueToks, AbsValue, IsName;
    if members != [] {
      var last := members[|members| - 1];
      MembersAreWellFormed(members[..|members| - 1], num);
      assert LexableMember(last, num);
      ValueIsWellFormed(last.value, num);
    }
  }

  lemma {:induction false} SelectionIsWellFormed(s: CSelection, num: string -> bool)
    requires LexableSelection(s, num)
    ensures WellFormedSelection(AbsSelection(s), num)
    decreases s, 1
  {
    hide AllValid, MembersToks, SelectionsToks, IsName, AbsMembers, AbsSelections, WellFormedValue, DistinctKeys, SelectionToks;
    SelectionLexable(s, num);
    if s.args.Some? {
      MembersLexable(s.args.value, ')', num);
      MembersAreWellFormed(s.args.value, num);
    } else {
      NoArgsAreWellFormed(num);
    }
    if s.nested.CSet? {
      SelectionsLexable(s.nested.selections, num);
      SelectionsAreWellFormed(s.nested.selections, num);
    }
  }

  lemma NoArgsAreWellFormed(num: string -> bool)
    ensures WellFormedValue(Object(map[]), num)
  {}

  lemma {:induction false} SelectionsAreWellFormed(ss: seq<CSelection>, num: string -> bool)
    requires forall s | s in ss :: LexableSelection(s, num)
    ensures forall i | 0 <= i < |ss| :: WellFormedSelection(AbsSelections(ss)[i], num)
    decreases ss, 0
  {
    hide LexableSelection, WellFormedSelection, AbsSelection;
    if ss != [] {
      SelectionsAreWellFormed(ss[..|ss| - 1], num);
      SelectionIsWellFormed(ss[|ss| - 1], num);
    }
  }

  lemma {:induction false} VarsAreWellFormed(vars: seq<CVarDef>, num: string -> bool)
    requires forall v | v in vars :: LexableVar(v, num)
    ensures forall v | v in AbsVars(vars) :: WellFormedVar(v)
  {
    hide TypeText, WellFormedType, IsName;
    if vars != [] {
      VarsAreWellFormed(vars[..|vars| - 1], num);
      var last := vars[|vars| - 1];
      assert LexableVar(last, num);
      assert WellFormedVar(VarDef(last.name, TypeText(last.typ)));
    }
  }

  lemma OperationIsWellFormed(op: COperation, num: string -> bool)
    requires LexableOperation(op, num)
    ensures WellFormedOperation(AbsOperation(op), num)
  {
    hide LexableOperation, LexableSelection, LexableVar, WellFormedVar, WellFormedSelection, AllValid,
         AbsSelections, AbsVars, VarsToks, SelectionsToks, ValidSelections;
    OperationLexable(op, num);
    SelectionsLexable(op.selections, num);
    SelectionsAreWellFormed(op.selections, num);
    if op.CFull? && op.vars.Some? {
      VarsLexable(op.vars.value, num);
      VarsAreWellFormed(op.vars.value, num);
    }
  }

  lemma {:induction false} OperationsAreWellFormed(doc: seq<COperation>, num: string -> bool)
    requires forall op | op in doc :: LexableOperation(op, num)
    ensures forall op | op in AbsDocument(doc) :: WellFormedOperation(op, num)
  {
    hide LexableOperation, WellFormedOperation, AbsOperation;
    if doc != [] {
      OperationsAreWellFormed(doc[..|doc| - 1], num);
      OperationIsWellFormed(doc[|doc| - 1], num);
    }
  }

  /**
   Whatever a text parses to is well formed; so by RoundTrip, writing the result down in
   any layout and parsing again gives the same result.
   */
  lemma ResultIsWellFormed(src: string, num: string -> bool)
    requires Query(src, num).Ok?
    ensures WellFormed(Query(src, num).value, num)
  {
    hide WellFormedOperation, LexableOperation, ValidOperation, TrimSpace, Tokens, AbsDocument, POperations;
    var ts := Tokens(src, num).value;
    var doc := PDocument(ts).value;
    TokensAreValid(src, num);
    NoEndMarker(src, num);
    DocumentExact(ts, doc);
    DocumentLexable(doc, num);
    OperationsAreWellFormed(doc, num);
  }

  // ----- Consequences for texts

  /** In every accepted text the braces, parentheses and brackets nest. */
  lemma AcceptedTextNests(src: string, num: string -> bool)
    requires Query(src, num).Ok?
    ensures Balanced(Tokens(src, num).value)
  {
    hide TrimSpace, Tokens, AbsDocument;
    NoEndMarker(src, num);
    AcceptedNests(Tokens(src, num).value);
  }

  lemma {:induction false} DocumentToksJoin(a: seq<COperation>, b: seq<COperation>)
    ensures DocumentToks(a + b) == DocumentToks(a) + DocumentToks(b)
  {
    hide OperationToks;
    if a == [] {
      assert a + b == b;
    } else {
      assert (a + b)[0] == a[0] && (a + b)[1..] == a[1..] + b;
      DocumentToksJoin(a[1..], b);
      Assoc(OperationToks(a[0]), DocumentToks(a[1..]), DocumentToks(b));
    }
  }

  lemma {:induction false} AbsDocumentJoin(a: seq<COperation>, b: seq<COperation>)
    ensures AbsDocument(a + b) == AbsDocument(a) + AbsDocument(b)
  {
    hide AbsOperation;
    if b == [] {
      assert a + b == a;
    } else {
      var front, last := b[..|b| - 1], b[|b| - 1];
      assert (a + b)[..|a + b| - 1] == a + front;
      AbsDocumentJoin(a, front);
    }
  }

  /** Joining two accepted documents with a line break joins their operations. */
  lemma DocumentsJoin(a: string, b: string, num: string -> bool)
    requires Query(a, num).Ok? && Query(b, num).Ok?
    ensures Query(a + "\n" + b, num) == Ok(Query(a, num).value + Query(b, num).value)
  {
    hide TrimSpace, Tokens, AbsDocument, POperations, ValidOperation;
    var ta, tb := Tokens(a, num).value, Tokens(b, num).value;
    var da, db := PDocument(ta).value, PDocument(tb).value;
    NoEndMarker(a, num);
    NoEndMarker(b, num);
    DocumentExact(ta, da);
    DocumentExact(tb, db);
    TokensOfJoin(a, b, num);
    DocumentToksJoin(da, db);
    AbsDocumentJoin(da, db);
    DocumentExact(ta + tb, da + db);
    assert ta + tb != [] by {
      DocumentHasTokens(da);
    }
    TokensAreNotBlank(a + "\n" + b, num);
  }
}
