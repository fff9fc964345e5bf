/**
 The recursive-descent parser of src/graphql/resolvers.go, which walks a token list with
 a cursor. Each method is tied to the reference parser: it fails with the same error, or
 it returns what the original keeps of the same construct and leaves the cursor on the
 same remaining tokens.
 */
module GraphqlParser {
  import opened Results
  import opened GraphqlLexer
  import opened GraphqlGrammar

  /** `got` is what the reference outcome `want` promises, with `rest` left to read. */
  ghost predicate Agrees<C, A>(got: Result<A, ParseError>, rest: seq<Token>, want: Parsed<C>, abs: C -> A) {
    match want
    case Fail(e) => got == Err(e)
    case Done(c, left) => got == Ok(abs(c)) && rest == left
  }

  /** An outcome with items that were read before it. */
  function After<T>(before: seq<T>, r: Parsed<seq<T>>): Parsed<seq<T>> {
    match r
    case Done(vs, rest) => Done(before + vs, rest)
    case Fail(e) => Fail(e)
  }

  lemma AfterNothing<T>(r: Parsed<seq<T>>)
    ensures After([], r) == r
  {
    if r.Done? {
      assert [] + r.value == r.value;
    }
  }

  lemma AfterEnd<T>(before: seq<T>, rest: seq<Token>)
    ensures After(before, Done([], rest)) == Done(before, rest)
  {
    assert before + [] == before;
  }

  lemma AfterTwice<T>(a: seq<T>, b: seq<T>, r: Parsed<seq<T>>)
    ensures After(a, After(b, r)) == After(a + b, r)
  {
    if r.Done? {
      assert a + (b + r.value) == a + b + r.value;
    }
  }

  lemma ItemsStep(before: seq<CValue>, ts: seq<Token>)
    requires Head(ts) != Punct(']') && Head(ts) != Eof
    ensures PValue(ts).Done? ==>
              After(before, PItems(ts)) == After(before + [PValue(ts).value], PItems(PValue(ts).rest)) &&
              AbsItems(before + [PValue(ts).value]) == AbsItems(before) + [AbsValue(PValue(ts).value)]
    ensures PValue(ts).Fail? ==> After(before, PItems(ts)) == Fail(PValue(ts).error)
  {
    hide PValue, AbsValue;
    if PValue(ts).Done? {
      var v := PValue(ts).value;
      AfterTwice(before, [v], PItems(PValue(ts).rest));
      assert (before + [v])[..|before|] == before;
    }
  }

  lemma AbsMembersPush(before: seq<CMember>, m: CMember)
    ensures AbsMembers(before + [m]) == AbsMembers(before)[m.key := AbsValue(m.value)]
  {
    hide AbsValue;
    assert (before + [m])[..|before|] == before;
  }

  lemma MembersStep(before: seq<CMember>, ts: seq<Token>)
    requires Head(ts) != Punct('}') && Head(ts) != Eof
    ensures PMember(ts).Done? ==>
              After(before, PMembers(ts)) == After(before + [PMember(ts).value], PMembers(PMember(ts).rest))
    ensures PMember(ts).Fail? ==> After(before, PMembers(ts)) == Fail(PMember(ts).error)
  {
    hide PMember;
    if PMember(ts).Done? {
      AfterTwice(before, [PMember(ts).value], PMembers(PMember(ts).rest));
    }
  }

  lemma ArgsStep(before: seq<CMember>, ts: seq<Token>, seen: set<string>)
    requires Head(ts) != Punct(')') && Head(ts) != Eof
    requires Head(ts).Name? ==> Head(ts).text !in seen
    ensures PMember(ts).Done? ==>
              After(before, PArgs(ts, seen)) ==
              After(before + [PMember(ts).value], PArgs(PMember(ts).rest, seen + {PMember(ts).value.key}))
    ensures PMember(ts).Fail? ==> After(before, PArgs(ts, seen)) == Fail(PMember(ts).error)
  {
    hide PMember;
    if PMember(ts).Done? {
      var m := PMember(ts).value;
      AfterTwice(before, [m], PArgs(PMember(ts).rest, seen + {m.key}));
    }
  }

  lemma SelectionsStep(before: seq<CSelection>, ts: seq<Token>)
    requires Head(ts) != Punct('}') && Head(ts) != Eof && Head(ts) != Punct('@')
    ensures PSelection(ts).Done? ==>
              After(before, PSelections(ts)) == After(before + [PSelection(ts).value], PSelections(PSelection(ts).rest)) &&
              AbsSelections(before + [PSelection(ts).value]) == AbsSelections(before) + [AbsSelection(PSelection(ts).value)]
    ensures PSelection(ts).Fail? ==> After(before, PSelections(ts)) == Fail(PSelection(ts).error)
  {
    hide PSelection, AbsSelection;
    if PSelection(ts).Done? {
      var s := PSelection(ts).value;
      AfterTwice(before, [s], PSelections(PSelection(ts).rest));
      assert (before + [s])[..|before|] == before;
    }
  }

  function AbsVar(v: CVarDef): VarDef {
    VarDef(v.name, TypeText(v.typ))
  }

  lemma VarsStep(before: seq<CVarDef>, ts: seq<Token>)
    requires Head(ts) != Punct(')') && Head(ts) != Eof
    ensures PVarDef(ts).Done? ==>
              After(before, PVars(ts)) == After(before + [PVarDef(ts).value], PVars(PVarDef(ts).rest)) &&
              AbsVars(before + [PVarDef(ts).value]) == AbsVars(before) + [AbsVar(PVarDef(ts).value)]
    ensures PVarDef(ts).Fail? ==> After(before, PVars(ts)) == Fail(PVarDef(ts).error)
  {
    hide PVarDef, TypeText;
    if PVarDef(ts).Done? {
      var v := PVarDef(ts).value;
      AfterTwice(before, [v], PVars(PVarDef(ts).rest));
      assert (before + [v])[..|before|] == before;
    }
  }

  class Parser {
    const toks: seq<Token>
    var pos: nat

    /** The cursor is on a token, and the only end marker is the last token. */
    ghost predicate Valid()
      reads this
    {
      pos < |toks| && toks[|toks| - 1] == Eof && Eof !in toks[..|toks| - 1]
    }

    /** The tokens still to read, without the end marker. */
    ghost function Rest(): seq<Token>
      requires Valid()
      reads this
    {
      toks[pos..|toks| - 1]
    }

    constructor (tokens: seq<Token>)
      requires Eof !in tokens
      ensures Valid() && Rest() == tokens && toks == tokens + [Eof]
    {
      toks := tokens + [Eof];
      pos := 0;
      new;
      assert toks[..|toks| - 1] == tokens;
    }

    /** The current token, not consumed. */
    function Peek(): (t: Token)
      requires Valid()
      reads this
      ensures t == Head(Rest())
    {
      if pos < |toks| - 1 then
        assert Rest()[0] == toks[pos];
        toks[pos]
      else
        toks[pos]
    }

    /** Consumes the current token unless it is the end marker. */
    method Next() returns (t: Token)
      requires Valid()
      modifies this`pos
      ensures Valid() && t == old(Peek())
      ensures Rest() == if t == Eof then old(Rest()) else old(Rest())[1..]
    {
      t := toks[pos];
      if t != Eof {
        pos := pos + 1;
      }
    }

    method AcceptPunct(mark: char) returns (accepted: bool)
      requires Valid()
      modifies this`pos
      ensures Valid() && accepted == (old(Peek()) == Punct(mark))
      ensures Rest() == if accepted then old(Rest())[1..] else old(Rest())
    {
      if Peek() == Punct(mark) {
        pos := pos + 1;
        return true;
      }
      return false;
    }

    method ExpectPunct(mark: char) returns (r: Result<(), ParseError>)
      requires Valid()
      modifies this`pos
      ensures Valid() && Agrees(r, Rest(), GraphqlGrammar.ExpectPunct(mark, old(Rest())), (u: ()) => u)
    {
      var accepted := AcceptPunct(mark);
      if accepted {
        return Ok(());
      }
      return Err(ParseError.ExpectedPunct(mark, Peek()));
    }

    method ExpectName() returns (r: Result<string, ParseError>)
      requires Valid()
      modifies this`pos
      ensures Valid() && Agrees(r, Rest(), GraphqlGrammar.ExpectName(old(Rest())), (s: string) => s)
    {
      var t := Peek();
      if !t.Name? {
        return Err(ParseError.ExpectedName(t));
      }
      pos := pos + 1;
      return Ok(t.text);
    }

    /** One value. */
    method ParseValue() returns (r: Result<Value, ParseError>)
      requires Valid()
      modifies this`pos
      ensures Valid() && Agrees(r, Rest(), PValue(old(Rest())), AbsValue)
      decreases |Rest()|, 0
    {
      hide PItems, PMembers, AbsItems, AbsMembers;
      var t := Peek();
      if t == Punct('$') {
        var _ := Next();
        var name :- ExpectName();
        return Ok(Variable(name));
      } else if t.Str? {
        var _ := Next();
        return Ok(Literal(LString(t.text)));
      } else if t.Number? {
        var _ := Next();
        return Ok(Literal(LNumber(t.text)));
      } else if t.Name? {
        var _ := Next();
        return Ok(Literal(NameLiteral(t.text)));
      } else if t == Punct('[') {
        var _ := Next();
        var items :- ParseItems();
        return Ok(List(items));
      } else if t == Punct('{') {
        var _ := Next();
        var members :- ParseMembers();
        return Ok(Object(members));
      } else {
        return Err(ParseError.ExpectedValue(t));
      }
    }

    /** The items of a list value, up to its closing bracket. */
    method ParseItems() returns (r: Result<seq<Value>, ParseError>)
      requires Valid()
      modifies this`pos
      ensures Valid() && Agrees(r, Rest(), PItems(old(Rest())), AbsItems)
      decreases |Rest()|, 1
    {
      hide PValue, AbsValue;
      ghost var ts, read := Rest(), [];
      var items: seq<Value> := [];
      AfterNothing(PItems(ts));
      while true
        invariant Valid() && |Rest()| <= |ts|
        invariant items == AbsItems(read)
        invariant PItems(ts) == After(read, PItems(Rest()))
        decreases |Rest()|
      {
        ghost var here := Rest();
        var closed := AcceptPunct(']');
        if closed {
          AfterEnd(read, Rest());
          return Ok(items);
        }
        if Peek() == Eof {
          return Err(UnterminatedList);
        }
        ItemsStep(read, here);
        var item :- ParseValue();
        items := items + [item];
        read := read + [PValue(here).value];
      }
    }

    /** A name, a colon and a value. */
    method ParseMember() returns (r: Result<(string, Value), ParseError>)
      requires Valid()
      modifies this`pos
      ensures Valid() && Agrees(r, Rest(), PMember(old(Rest())), (m: CMember) => (m.key, AbsValue(m.value)))
      decreases |Rest()|, 1
    {
      hide PValue, AbsValue;
      var name :- ExpectName();
      var _ :- ExpectPunct(':');
      var value :- ParseValue();
      return Ok((name, value));
    }

    /** The members of an object value, up to its closing brace; a repeated key keeps its last value. */
    method ParseMembers() returns (r: Result<map<string, Value>, ParseError>)
      requires Valid()
      modifies this`pos
      ensures Valid() && Agrees(r, Rest(), PMembers(old(Rest())), AbsMembers)
      decreases |Rest()|, 2
    {
      hide PMember, AbsValue;
      ghost var ts, read := Rest(), [];
      var members: map<string, Value> := map[];
      AfterNothing(PMembers(ts));
      while true
        invariant Valid() && |Rest()| <= |ts|
        invariant members == AbsMembers(read)
        invariant PMembers(ts) == After(read, PMembers(Rest()))
        decreases |Rest()|
      {
        ghost var here := Rest();
        var closed := AcceptPunct('}');
        if closed {
          AfterEnd(read, Rest());
          return Ok(members);
        }
        if Peek() == Eof {
          return Err(UnterminatedObject);
        }
        MembersStep(read, here);
        var member :- ParseMember();
        members := members[member.0 := member.1];
        AbsMembersPush(read, PMember(here).value);
        read := read + [PMember(here).value];
      }
    }

    /** The arguments of a field, up to the closing parenthesis. */
    method ParseArgs() returns (r: Result<map<string, Value>, ParseError>)
      requires Valid()
      modifies this`pos
      ensures Valid() && Agrees(r, Rest(), PArgs(old(Rest()), {}), AbsMembers)
    {
      hide PMember, AbsValue;
      ghost var ts, read := Rest(), [];
      var args: map<string, Value> := map[];
      AfterNothing(PArgs(ts, {}));
      assert args.Keys == {};
      while true
        invariant Valid() && |Rest()| <= |ts|
        invariant args == AbsMembers(read)
        invariant PArgs(ts, {}) == After(read, PArgs(Rest(), args.Keys))
        decreases |Rest()|
      {
        ghost var here, seen := Rest(), args.Keys;
        var closed := AcceptPunct(')');
        if closed {
          AfterEnd(read, Rest());
          return Ok(args);
        }
        if Peek() == Eof {
          return Err(UnterminatedArgs);
        }
        if Peek().Name? && Peek().text in args {
          return Err(RepeatedArg(Peek().text));
        }
        ArgsStep(read, here, seen);
        var member :- ParseMember();
        args := args[member.0 := member.1];
        AbsMembersPush(read, PMember(here).value);
        read := read + [PMember(here).value];
        assert args.Keys == seen + {member.0};
      }
    }

    /** One field with its alias, arguments and nested selection set. */
    method ParseSelection() returns (r: Result<Selection, ParseError>)
      requires Valid()
      modifies this`pos
      ensures Valid() && Agrees(r, Rest(), PSelection(old(Rest())), AbsSelection)
      decreases |Rest()|, 0
    {
      hide PArgs, PSelections, AbsMembers, AbsSelections;
      var alias, name := "", "";
      var first :- ExpectName();
      name := first;
      var colon := AcceptPunct(':');
      if colon {
        var aliased :- ExpectName();
        alias := first;
        name := aliased;
      }
      r := ParseField(alias, name, if colon then Some(alias) else None);
    }

    /** What follows the name of a field. */
    method ParseField(alias: string, name: string, ghost written: Option<string>) returns (r: Result<Selection, ParseError>)
      requires Valid()
      requires alias == if written.Some? then written.value else ""
      modifies this`pos
      ensures Valid() && Agrees(r, Rest(), PField(written, name, old(Rest())), AbsSelection)
      decreases |Rest()|, 3
    {
      hide PArgs, PSelections, AbsMembers, AbsSelections;
      var args: map<string, Value> := map[];
      if Peek() == Punct('(') {
        var _ := AcceptPunct('(');
        args :- ParseArgs();
      }
      if Peek() == Punct('@') {
        return Err(Directives);
      }
      var nested: seq<Selection> := [];
      if Peek() == Punct('{') {
        nested :- ParseSelectionSet();
      }
      return Ok(Selection(alias, name, args, nested));
    }

    /** A braced list of selections. */
    method ParseSelectionSet() returns (r: Result<seq<Selection>, ParseError>)
      requires Valid()
      modifies this`pos
      ensures Valid() && Agrees(r, Rest(), PBracedSet(old(Rest())), AbsSelections)
      decreases |Rest()|, 2
    {
      hide PSelection, AbsSelection;
      var _ :- ExpectPunct('{');
      ghost var ts, read := Rest(), [];
      var out: seq<Selection> := [];
      AfterNothing(PSelections(ts));
      while true
        invariant Valid() && |Rest()| <= |ts|
        invariant out == AbsSelections(read)
        invariant PSelections(ts) == After(read, PSelections(Rest()))
        decreases |Rest()|
      {
        ghost var here := Rest();
        var closed := AcceptPunct('}');
        if closed {
          AfterEnd(read, Rest());
          break;
        }
        if Peek() == Eof {
          return Err(UnterminatedSelections);
        }
        if Peek() == Punct('@') {
          return Err(Directives);
        }
        SelectionsStep(read, here);
        var sel :- ParseSelection();
        out := out + [sel];
        read := read + [PSelection(here).value];
      }
      if |out| == 0 {
        return Err(EmptySelection);
      }
      return Ok(out);
    }

    /** The declared type of a variable, as text. */
    method ParseVarType() returns (r: Result<string, ParseError>)
      requires Valid()
      modifies this`pos
      ensures Valid() && Agrees(r, Rest(), PType(old(Rest())), TypeText)
      decreases |Rest()|
    {
      hide Marks, MarksText;
      var b := "";
      var list := AcceptPunct('[');
      if list {
        var inner :- ParseVarType();
        var _ :- ExpectPunct(']');
        b := "[" + inner + "]";
      } else {
        var name :- ExpectName();
        b := name;
      }
      var marks := ParseMarks();
      return Ok(b + marks);
    }

    /** Any number of non-null marks. */
    method ParseMarks() returns (b: string)
      requires Valid()
      modifies this`pos
      ensures Valid() && b == MarksText(Marks(old(Rest()))) && Rest() == old(Rest())[Marks(old(Rest()))..]
    {
      b := "";
      ghost var ts, n := Rest(), 0;
      while true
        invariant Valid() && n + |Rest()| == |ts| && Rest() == ts[n..]
        invariant b == MarksText(n) && Marks(ts) == n + Marks(Rest())
        decreases |Rest()|
      {
        var mark := AcceptPunct('!');
        if !mark {
          break;
        }
        b := b + "!";
        n := n + 1;
      }
    }

    /** One variable definition; its default value is read and dropped. */
    method ParseVarDef() returns (r: Result<VarDef, ParseError>)
      requires Valid()
      modifies this`pos
      ensures Valid() && Agrees(r, Rest(), PVarDef(old(Rest())), AbsVar)
    {
      hide PType, PValue, TypeText, AbsValue;
      var _ :- ExpectPunct('$');
      var name :- ExpectName();
      var _ :- ExpectPunct(':');
      var typ :- ParseVarType();
      var default := AcceptPunct('=');
      if default {
        var _ :- ParseValue();
      }
      return Ok(VarDef(name, typ));
    }

    /** A parenthesised list of variable definitions. */
    method ParseVarDefs() returns (r: Result<seq<VarDef>, ParseError>)
      requires Valid()
      modifies this`pos
      ensures Valid() && Agrees(r, Rest(), PBracedVars(old(Rest())), AbsVars)
    {
      hide PVarDef, TypeText;
      var _ :- ExpectPunct('(');
      ghost var ts, read := Rest(), [];
      var out: seq<VarDef> := [];
      AfterNothing(PVars(ts));
      while true
        invariant Valid() && |Rest()| <= |ts|
        invariant out == AbsVars(read)
        invariant PVars(ts) == After(read, PVars(Rest()))
        decreases |Rest()|
      {
        ghost var here := Rest();
        var closed := AcceptPunct(')');
        if closed {
          AfterEnd(read, Rest());
          return Ok(out);
        }
        if Peek() == Eof {
          return Err(UnterminatedVars);
        }
        VarsStep(read, here);
        var v :- ParseVarDef();
        out := out + [v];
        read := read + [PVarDef(here).value];
      }
    }

    /** One query or mutation. */
    method ParseOperation() returns (r: Result<Operation, ParseError>)
      requires Valid()
      modifies this`pos
      ensures Valid() && Agrees(r, Rest(), POperation(old(Rest())), AbsOperation)
    {
      hide PFull, PSelections, AbsVars, AbsSelections;
      var t := Peek();
      if t.Name? {
        if t.text == "query" || t.text == "mutation" {
          var _ := Next();
          r := ParseFull(t.text);
          return;
        } else if t.text == "subscription" {
          return Err(Subscriptions);
        } else if t.text == "fragment" {
          return Err(Fragments);
        } else {
          return Err(ParseError.ExpectedOperation(t.text));
        }
      }
      var sels :- ParseSelectionSet();
      return Ok(Operation("query", "", [], sels));
    }

    /** An operation after its keyword: name, variables and selections. */
    method ParseFull(kind: string) returns (r: Result<Operation, ParseError>)
      requires Valid()
      modifies this`pos
      ensures Valid() && Agrees(r, Rest(), PFull(kind, old(Rest())), AbsOperation)
    {
      hide PVars, PSelectionSet, AbsVars, AbsSelections;
      var name := "";
      var vars: seq<VarDef> := [];
      ghost var ts1 := POptName(Rest()).1;
      if Peek().Name? {
        var n := Next();
        name := n.text;
      }
      assert Rest() == ts1;
      if Peek() == Punct('(') {
        vars :- ParseVarDefs();
      }
      assert POptVars(ts1).Done? && POptVars(ts1).rest == Rest();
      var sels :- ParseSelectionSet();
      return Ok(Operation(kind, name, vars, sels));
    }
  }

  /** A selection set with its opening brace. */
  function PBracedSet(ts: seq<Token>): Parsed<seq<CSelection>> {
    var (_, ts1) :- GraphqlGrammar.ExpectPunct('{', ts);
    PSelectionSet(ts1)
  }

  /** Variable definitions with their opening parenthesis. */
  function PBracedVars(ts: seq<Token>): Parsed<seq<CVarDef>> {
    var (_, ts1) :- GraphqlGrammar.ExpectPunct('(', ts);
    PVars(ts1)
  }
}
