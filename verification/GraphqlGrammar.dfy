/**
 The GraphQL subset of src/graphql/resolvers.go as a grammar: what a document contains,
 how each construct is written as tokens, and a reference parser over token sequences
 that returns the construct it read.

 A construct (names starting with C) keeps everything the document says. The parser of
 the original keeps less: it drops default values and argument order, and an object
 literal keeps only the last member of a repeated key. `Abs...` is that forgetting.
 */
module GraphqlGrammar {
  import opened Results
  import opened GraphqlLexer

  // ----- What the parser returns

  datatype Literal = LString(text: string) | LNumber(text: string) | LBool(value: bool) | LNull

  datatype Value =
    | Variable(name: string)
    | Literal(literal: Literal)
    | List(items: seq<Value>)
    | Object(members: map<string, Value>)

  datatype Selection =
    Selection(alias: string, name: string, args: map<string, Value>, selections: seq<Selection>)
  {
    /** The response key: the alias when there is one. */
    function Key(): string {
      if alias != "" then alias else name
    }
  }

  datatype VarDef = VarDef(name: string, typ: string)

  datatype Operation = Operation(kind: string, name: string, vars: seq<VarDef>, selections: seq<Selection>)

  datatype ParseError =
    | ExpectedPunct(want: char, found: Token)
    | ExpectedName(found: Token)
    | ExpectedValue(found: Token)
    | ExpectedOperation(text: string)
    | UnterminatedVars
    | UnterminatedSelections
    | UnterminatedArgs
    | UnterminatedList
    | UnterminatedObject
    | EmptySelection
    | RepeatedArg(name: string)
    | Directives
    | Subscriptions
    | Fragments
    | NoOperation
    | EmptyQuery
    | BadToken(cause: LexError)

  // ----- What a document says

  datatype CValue =
    | CVariable(name: string)
    | CString(text: string)
    | CNumber(text: string)
    | CName(text: string)
    | CList(items: seq<CValue>)
    | CObject(members: seq<CMember>)

  datatype CMember = CMember(key: string, value: CValue)

  datatype CSelection =
    CSelection(alias: Option<string>, name: string, args: Option<seq<CMember>>, nested: CNested)

  datatype CNested = CLeaf | CSet(selections: seq<CSelection>)

  /** A named or list type with its trailing non-null marks. */
  datatype CType = CNamed(name: string, marks: nat) | CListOf(inner: CType, marks: nat)

  datatype CVarDef = CVarDef(name: string, typ: CType, default: Option<CValue>)

  datatype COperation =
    | CShort(selections: seq<CSelection>)
    | CFull(kind: string, name: Option<string>, vars: Option<seq<CVarDef>>, selections: seq<CSelection>)

  // ----- How it is written

  function ValueToks(v: CValue): seq<Token>
    decreases v, 1
  {
    match v
    case CVariable(name) => [Punct('$'), Name(name)]
    case CString(text) => [Str(text)]
    case CNumber(text) => [Number(text)]
    case CName(text) => [Name(text)]
    case CList(items) => [Punct('[')] + ItemsToks(items)
    case CObject(members) => [Punct('{')] + MembersToks(members, '}')
  }

  /** The items of a list value and its closing bracket. */
  function ItemsToks(items: seq<CValue>): seq<Token>
    decreases items, 0
  {
    if items == [] then [Punct(']')] else ValueToks(items[0]) + ItemsToks(items[1..])
  }

  /** Named values and the closing mark: the members of an object or the arguments of a field. */
  function MembersToks(members: seq<CMember>, close: char): seq<Token>
    decreases members, 0
  {
    if members == [] then [Punct(close)]
    else [Name(members[0].key), Punct(':')] + (ValueToks(members[0].value) + MembersToks(members[1..], close))
  }

  function SelectionToks(s: CSelection): seq<Token>
    decreases s, 1
  {
    (if s.alias.Some? then [Name(s.alias.value), Punct(':')] else []) +
    ([Name(s.name)] +
     ((if s.args.Some? then [Punct('(')] + MembersToks(s.args.value, ')') else []) +
      (if s.nested.CSet? then [Punct('{')] + SelectionsToks(s.nested.selections) else [])))
  }

  /** The selections of a set and its closing brace. */
  function SelectionsToks(ss: seq<CSelection>): seq<Token>
    decreases ss, 0
  {
    if ss == [] then [Punct('}')] else SelectionToks(ss[0]) + SelectionsToks(ss[1..])
  }

  function MarksToks(marks: nat): seq<Token> {
    if marks == 0 then [] else [Punct('!')] + MarksToks(marks - 1)
  }

  function TypeToks(t: CType): seq<Token> {
    match t
    case CNamed(name, marks) => [Name(name)] + MarksToks(marks)
    case CListOf(inner, marks) => [Punct('[')] + (TypeToks(inner) + ([Punct(']')] + MarksToks(marks)))
  }

  function DefaultToks(default: Option<CValue>): seq<Token> {
    if default.Some? then [Punct('=')] + ValueToks(default.value) else []
  }

  /** Variable definitions and the closing parenthesis. */
  function VarsToks(vars: seq<CVarDef>): seq<Token> {
    if vars == [] then [Punct(')')]
    else [Punct('$'), Name(vars[0].name), Punct(':')] +
         (TypeToks(vars[0].typ) + (DefaultToks(vars[0].default) + VarsToks(vars[1..])))
  }

  function OperationToks(op: COperation): seq<Token> {
    match op
    case CShort(selections) => [Punct('{')] + SelectionsToks(selections)
    case CFull(kind, name, vars, selections) =>
      [Name(kind)] +
      ((if name.Some? then [Name(name.value)] else []) +
       ((if vars.Some? then [Punct('(')] + VarsToks(vars.value) else []) +
        ([Punct('{')] + SelectionsToks(selections))))
  }

  function DocumentToks(doc: seq<COperation>): seq<Token> {
    if doc == [] then [] else OperationToks(doc[0]) + DocumentToks(doc[1..])
  }

  // ----- Which constructs are allowed

  predicate DistinctKeys(members: seq<CMember>) {
    forall i, j | 0 <= i < j < |members| :: members[i].key != members[j].key
  }

  predicate ValidSelection(s: CSelection)
    decreases s, 1
  {
    (s.args.Some? ==> DistinctKeys(s.args.value)) &&
    (s.nested.CSet? ==> s.nested.selections != [] && ValidSelections(s.nested.selections))
  }

  predicate ValidSelections(ss: seq<CSelection>)
    decreases ss, 0
  {
    ss != [] ==> ValidSelection(ss[0]) && ValidSelections(ss[1..])
  }

  predicate ValidOperation(op: COperation) {
    (op.CFull? ==> op.kind == "query" || op.kind == "mutation") &&
    op.selections != [] && ValidSelections(op.selections)
  }

  predicate ValidDocument(doc: seq<COperation>) {
    doc != [] && forall op | op in doc :: ValidOperation(op)
  }

  // ----- Reference parser

  /** A construct and the tokens after it, or an error. */
  datatype Parsed<+T> = Done(value: T, rest: seq<Token>) | Fail(error: ParseError) {

    predicate IsFailure() {
      Fail?
    }

    function PropagateFailure<U>(): Parsed<U>
      requires Fail?
    {
      Fail(error)
    }

    function Extract(): (T, seq<Token>)
      requires Done?
    {
      (value, rest)
    }
  }

  function Head(ts: seq<Token>): Token {
    if ts == [] then Eof else ts[0]
  }

  function ExpectPunct(c: char, ts: seq<Token>): (r: Parsed<()>)
    ensures r.Done? <==> Head(ts) == Punct(c)
    ensures r.Done? ==> |ts| > 0 && r.rest == ts[1..]
  {
    if Head(ts) == Punct(c) then Done((), ts[1..]) else Fail(ParseError.ExpectedPunct(c, Head(ts)))
  }

  function ExpectName(ts: seq<Token>): (r: Parsed<string>)
    ensures r.Done? <==> Head(ts).Name?
    ensures r.Done? ==> |ts| > 0 && r.value == ts[0].text && r.rest == ts[1..]
  {
    if Head(ts).Name? then Done(ts[0].text, ts[1..]) else Fail(ParseError.ExpectedName(Head(ts)))
  }

  function PValue(ts: seq<Token>): (r: Parsed<CValue>)
    ensures r.Done? ==> |r.rest| < |ts|
    decreases |ts|, 0
  {
    var h := Head(ts);
    if h == Punct('$') then
      var (name, rest) :- ExpectName(ts[1..]);
      Done(CVariable(name), rest)
    else if h.Str? then Done(CString(h.text), ts[1..])
    else if h.Number? then Done(CNumber(h.text), ts[1..])
    else if h.Name? then Done(CName(h.text), ts[1..])
    else if h == Punct('[') then
      var (items, rest) :- PItems(ts[1..]);
      Done(CList(items), rest)
    else if h == Punct('{') then
      var (members, rest) :- PMembers(ts[1..]);
      Done(CObject(members), rest)
    else Fail(ParseError.ExpectedValue(h))
  }

  function PItems(ts: seq<Token>): (r: Parsed<seq<CValue>>)
    ensures r.Done? ==> |r.rest| < |ts|
    decreases |ts|, 1
  {
    if Head(ts) == Punct(']') then Done([], ts[1..])
    else if Head(ts) == Eof then Fail(UnterminatedList)
    else
      var (v, ts1) :- PValue(ts);
      var (vs, rest) :- PItems(ts1);
      Done([v] + vs, rest)
  }

  function PMember(ts: seq<Token>): (r: Parsed<CMember>)
    ensures r.Done? ==> |r.rest| < |ts|
    decreases |ts|, 1
  {
    var (key, ts1) :- ExpectName(ts);
    var (_, ts2) :- ExpectPunct(':', ts1);
    var (v, rest) :- PValue(ts2);
    Done(CMember(key, v), rest)
  }

  function PMembers(ts: seq<Token>): (r: Parsed<seq<CMember>>)
    ensures r.Done? ==> |r.rest| < |ts|
    decreases |ts|, 2
  {
    if Head(ts) == Punct('}') then Done([], ts[1..])
    else if Head(ts) == Eof then Fail(UnterminatedObject)
    else
      var (m, ts1) :- PMember(ts);
      var (ms, rest) :- PMembers(ts1);
      Done([m] + ms, rest)
  }

  /** Arguments: like the members of an object, but a key in `seen` is refused. */
  function PArgs(ts: seq<Token>, seen: set<string>): (r: Parsed<seq<CMember>>)
    ensures r.Done? ==> |r.rest| < |ts|
    decreases |ts|
  {
    if Head(ts) == Punct(')') then Done([], ts[1..])
    else if Head(ts) == Eof then Fail(UnterminatedArgs)
    else if Head(ts).Name? && Head(ts).text in seen then Fail(RepeatedArg(Head(ts).text))
    else
      var (m, ts1) :- PMember(ts);
      var (ms, rest) :- PArgs(ts1, seen + {m.key});
      Done([m] + ms, rest)
  }

  function POptArgs(ts: seq<Token>): (r: Parsed<Option<seq<CMember>>>)
    ensures r.Done? ==> |r.rest| <= |ts|
  {
    if Head(ts) == Punct('(') then
      var (args, rest) :- PArgs(ts[1..], {});
      Done(Some(args), rest)
    else Done(None, ts)
  }

  function PSelection(ts: seq<Token>): (r: Parsed<CSelection>)
    ensures r.Done? ==> |r.rest| < |ts|
    decreases |ts|, 0
  {
    var (first, ts1) :- ExpectName(ts);
    if Head(ts1) == Punct(':') then
      var (name, ts2) :- ExpectName(ts1[1..]);
      PField(Some(first), name, ts2)
    else
      PField(None, first, ts1)
  }

  /** What follows the name of a field: arguments and a nested selection set. */
  function PField(alias: Option<string>, name: string, ts: seq<Token>): (r: Parsed<CSelection>)
    ensures r.Done? ==> |r.rest| <= |ts|
    decreases |ts|, 2
  {
    var (args, ts1) :- POptArgs(ts);
    if Head(ts1) == Punct('@') then Fail(Directives)
    else if Head(ts1) == Punct('{') then
      var (nested, rest) :- PSelectionSet(ts1[1..]);
      Done(CSelection(alias, name, args, CSet(nested)), rest)
    else Done(CSelection(alias, name, args, CLeaf), ts1)
  }

  /** A selection set, after its opening brace. */
  function PSelectionSet(ts: seq<Token>): (r: Parsed<seq<CSelection>>)
    ensures r.Done? ==> |r.rest| < |ts|
    decreases |ts|, 2
  {
    var (ss, rest) :- PSelections(ts);
    if ss == [] then Fail(EmptySelection) else Done(ss, rest)
  }

  function PSelections(ts: seq<Token>): (r: Parsed<seq<CSelection>>)
    ensures r.Done? ==> |r.rest| < |ts|
    decreases |ts|, 1
  {
    if Head(ts) == Punct('}') then Done([], ts[1..])
    else if Head(ts) == Eof then Fail(UnterminatedSelections)
    else if Head(ts) == Punct('@') then Fail(Directives)
    else
      var (s, ts1) :- PSelection(ts);
      var (ss, rest) :- PSelections(ts1);
      Done([s] + ss, rest)
  }

  /** The number of non-null marks at the front. */
  function Marks(ts: seq<Token>): (n: nat)
    ensures n <= |ts|
  {
    if Head(ts) == Punct('!') then 1 + Marks(ts[1..]) else 0
  }

  function PType(ts: seq<Token>): (r: Parsed<CType>)
    ensures r.Done? ==> |r.rest| < |ts|
    decreases |ts|
  {
    if Head(ts) == Punct('[') then
      var (inner, ts1) :- PType(ts[1..]);
      var (_, ts2) :- ExpectPunct(']', ts1);
      Done(CListOf(inner, Marks(ts2)), ts2[Marks(ts2)..])
    else
      var (name, ts1) :- ExpectName(ts);
      Done(CNamed(name, Marks(ts1)), ts1[Marks(ts1)..])
  }

  function PDefault(ts: seq<Token>): (r: Parsed<Option<CValue>>)
    ensures r.Done? ==> |r.rest| <= |ts|
  {
    if Head(ts) == Punct('=') then
      var (v, rest) :- PValue(ts[1..]);
      Done(Some(v), rest)
    else Done(None, ts)
  }

  function PVarDef(ts: seq<Token>): (r: Parsed<CVarDef>)
    ensures r.Done? ==> |r.rest| < |ts|
  {
    var (_, ts1) :- ExpectPunct('$', ts);
    var (name, ts2) :- ExpectName(ts1);
    var (_, ts3) :- ExpectPunct(':', ts2);
    var (typ, ts4) :- PType(ts3);
    var (default, rest) :- PDefault(ts4);
    Done(CVarDef(name, typ, default), rest)
  }

  /** Variable definitions, after the opening parenthesis. */
  function PVars(ts: seq<Token>): (r: Parsed<seq<CVarDef>>)
    ensures r.Done? ==> |r.rest| < |ts|
    decreases |ts|
  {
    if Head(ts) == Punct(')') then Done([], ts[1..])
    else if Head(ts) == Eof then Fail(UnterminatedVars)
    else
      var (v, ts1) :- PVarDef(ts);
      var (vs, rest) :- PVars(ts1);
      Done([v] + vs, rest)
  }

  function POptName(ts: seq<Token>): (r: (Option<string>, seq<Token>))
    ensures |r.1| <= |ts|
  {
    if Head(ts).Name? then (Some(ts[0].text), ts[1..]) else (None, ts)
  }

  function POptVars(ts: seq<Token>): (r: Parsed<Option<seq<CVarDef>>>)
    ensures r.Done? ==> |r.rest| <= |ts|
  {
    if Head(ts) == Punct('(') then
      var (vars, rest) :- PVars(ts[1..]);
      Done(Some(vars), rest)
    else Done(None, ts)
  }

  /** An operation after its keyword. */
  function PFull(kind: string, ts: seq<Token>): (r: Parsed<COperation>)
    ensures r.Done? ==> |r.rest| < |ts| && r.value.CFull? && r.value.kind == kind
  {
    var (name, ts1) := POptName(ts);
    var (vars, ts2) :- POptVars(ts1);
    var (_, ts3) :- ExpectPunct('{', ts2);
    var (ss, rest) :- PSelectionSet(ts3);
    Done(CFull(kind, name, vars, ss), rest)
  }

  function POperation(ts: seq<Token>): (r: Parsed<COperation>)
    ensures r.Done? ==> |r.rest| < |ts|
  {
    if !Head(ts).Name? then
      var (_, ts1) :- ExpectPunct('{', ts);
      var (ss, rest) :- PSelectionSet(ts1);
      Done(CShort(ss), rest)
    else if ts[0].text == "query" || ts[0].text == "mutation" then
      PFull(ts[0].text, ts[1..])
    else if ts[0].text == "subscription" then Fail(Subscriptions)
    else if ts[0].text == "fragment" then Fail(Fragments)
    else Fail(ParseError.ExpectedOperation(ts[0].text))
  }

  function POperations(ts: seq<Token>): Result<seq<COperation>, ParseError>
    decreases |ts|
  {
    if Head(ts) == Eof then Ok([])
    else match POperation(ts)
      case Fail(e) => Err(e)
      case Done(op, ts1) =>
        match POperations(ts1)
        case Err(e) => Err(e)
        case Ok(ops) => Ok([op] + ops)
  }

  /** A whole document. */
  function PDocument(ts: seq<Token>): Result<seq<COperation>, ParseError> {
    match POperations(ts)
    case Err(e) => Err(e)
    case Ok(ops) => if ops == [] then Err(NoOperation) else Ok(ops)
  }

  // ----- What the original keeps of each construct

  function AbsValue(v: CValue): Value
    decreases v, 1
  {
    match v
    case CVariable(name) => Variable(name)
    case CString(text) => Literal(LString(text))
    case CNumber(text) => Literal(LNumber(text))
    case CName(text) => Literal(NameLiteral(text))
    case CList(items) => List(AbsItems(items))
    case CObject(members) => Object(AbsMembers(members))
  }

  /** A bare name is a boolean, null, or an enum value kept as its text. */
  function NameLiteral(text: string): Literal {
    if text == "true" then LBool(true)
    else if text == "false" then LBool(false)
    else if text == "null" then LNull
    else LString(text)
  }

  function AbsItems(items: seq<CValue>): (vs: seq<Value>)
    ensures |vs| == |items|
    decreases items, 0
  {
    if items == [] then [] else AbsItems(items[..|items| - 1]) + [AbsValue(items[|items| - 1])]
  }

  function AbsMembers(members: seq<CMember>): (m: map<string, Value>)
    ensures forall k :: k in m <==> exists i :: 0 <= i < |members| && members[i].key == k
    decreases members, 0
  {
    if members == [] then map[]
    else
      var last := members[|members| - 1];
      var m := AbsMembers(members[..|members| - 1])[last.key := AbsValue(last.value)];
      assert forall k | k in m :: exists i :: 0 <= i < |members| && members[i].key == k;
      m
  }

  function AbsSelection(s: CSelection): Selection
    decreases s, 1
  {
    Selection(
      if s.alias.Some? then s.alias.value else "",
      s.name,
      if s.args.Some? then AbsMembers(s.args.value) else map[],
      if s.nested.CSet? then AbsSelections(s.nested.selections) else [])
  }

  function AbsSelections(ss: seq<CSelection>): (rs: seq<Selection>)
    ensures |rs| == |ss|
    decreases ss, 0
  {
    if ss == [] then [] else AbsSelections(ss[..|ss| - 1]) + [AbsSelection(ss[|ss| - 1])]
  }

  function MarksText(marks: nat): string {
    if marks == 0 then "" else MarksText(marks - 1) + "!"
  }

  /** The type as the original writes it down. */
  function TypeText(t: CType): string {
    match t
    case CNamed(name, marks) => name + MarksText(marks)
    case CListOf(inner, marks) => "[" + TypeText(inner) + "]" + MarksText(marks)
  }

  function AbsVars(vars: seq<CVarDef>): (rs: seq<VarDef>)
    ensures |rs| == |vars|
  {
    if vars == [] then []
    else
      var last := vars[|vars| - 1];
      AbsVars(vars[..|vars| - 1]) + [VarDef(last.name, TypeText(last.typ))]
  }

  function AbsOperation(op: COperation): Operation {
    match op
    case CShort(ss) => Operation("query", "", [], AbsSelections(ss))
    case CFull(kind, name, vars, ss) =>
      Operation(kind, if name.Some? then name.value else "", if vars.Some? then AbsVars(vars.value) else [], AbsSelections(ss))
  }

  function AbsDocument(doc: seq<COperation>): (rs: seq<Operation>)
    ensures |rs| == |doc|
  {
    if doc == [] then [] else AbsDocument(doc[..|doc| - 1]) + [AbsOperation(doc[|doc| - 1])]
  }
}
