/**
 Quoting arguments for a shell command string: shellQuote and shellJoin of
 src/service/escalation.go, against the quoting rules of the POSIX Shell Command Language
 (POSIX.1-2017, sections 2.2.1, 2.2.2 and 2.3).
 */
module Shell {
  import opened Results

  // ----- How a shell splits a command into words

  /** Outside quotes, inside single quotes, and after an unquoted backslash. */
  datatype Mode = Plain | Quoted | Escaped

  predicate IsBlank(c: char) {
    c == ' ' || c == '\t'
  }

  /** Characters with a further meaning when they are not quoted: section 2.2. */
  predicate IsSpecial(c: char) {
    c in "|&;<>()$`\"\n*?[#~=%"
  }

  function TextOf(word: Option<string>): string {
    if word.Some? then word.value else ""
  }

  /**
   The words of the rest of a command, with the word begun so far. There is no answer when
   a quote stays open or an unquoted character does more than spell itself.
   */
  function Scan(s: string, mode: Mode, word: Option<string>): Option<seq<string>> {
    if s == "" then
      if mode == Plain then Some(if word.Some? then [word.value] else []) else None
    else match mode
      case Quoted =>
        if s[0] == '\'' then Scan(s[1..], Plain, word) else Scan(s[1..], Quoted, Some(TextOf(word) + [s[0]]))
      case Escaped =>
        if s[0] == '\n' then Scan(s[1..], Plain, word) else Scan(s[1..], Plain, Some(TextOf(word) + [s[0]]))
      case Plain =>
        if IsBlank(s[0]) then WithWord(word, Scan(s[1..], Plain, None))
        else if s[0] == '\'' then Scan(s[1..], Quoted, Some(TextOf(word)))
        else if s[0] == '\\' then Scan(s[1..], Escaped, word)
        else if IsSpecial(s[0]) then None
        else Scan(s[1..], Plain, Some(TextOf(word) + [s[0]]))
  }

  /** The words of the rest, after the word that ends here, if there is one. */
  function WithWord(word: Option<string>, rest: Option<seq<string>>): Option<seq<string>> {
    if rest.None? || word.None? then rest else Some([word.value] + rest.value)
  }

  function Words(command: string): Option<seq<string>> {
    Scan(command, Plain, None)
  }

  // ----- Quoting

  /** A single quote closes the quotes, stands escaped and opens them again. */
  function EscapeChar(c: char): string {
    if c == '\'' then "'\\''" else [c]
  }

  function Escape(a: string): string {
    if a == "" then "" else Escape(a[..|a| - 1]) + EscapeChar(a[|a| - 1])
  }

  function Quote(a: string): string {
    "'" + Escape(a) + "'"
  }

  function Join(args: seq<string>): string {
    if args == [] then ""
    else if |args| == 1 then Quote(args[0])
    else Join(args[..|args| - 1]) + " " + Quote(args[|args| - 1])
  }

  method ShellQuote(a: string) returns (quoted: string)
    ensures quoted == Quote(a)
  {
    quoted := "'";
    var i := 0;
    while i < |a|
      invariant 0 <= i <= |a| && quoted == "'" + Escape(a[..i])
    {
      assert a[..i + 1][..i] == a[..i];
      if a[i] == '\'' {
        quoted := quoted + "'\\''";
      } else {
        quoted := quoted + [a[i]];
      }
      i := i + 1;
    }
    assert a[..i] == a;
    quoted := quoted + "'";
  }

  method ShellJoin(args: seq<string>) returns (joined: string)
    ensures joined == Join(args)
  {
    joined := "";
    var i := 0;
    while i < |args|
      invariant 0 <= i <= |args| && joined == Join(args[..i])
    {
      assert args[..i + 1][..i] == args[..i];
      if i > 0 {
        joined := joined + " ";
      }
      var quoted := ShellQuote(args[i]);
      joined := joined + quoted;
      i := i + 1;
    }
    assert args[..i] == args;
  }

  // ----- What the shell makes of it

  lemma ScanEscapedChar(c: char, rest: string, w: string)
    ensures Scan(EscapeChar(c) + rest, Quoted, Some(w)) == Scan(rest, Quoted, Some(w + [c]))
  {
    if c == '\'' {
      var open := "'" + rest;
      var s := "'\\''" + rest;
      assert s[1..] == "\\''" + rest && s[1..][1..] == "'" + open;
      assert ("'" + open)[1..] == open && open[1..] == rest;
      assert Scan("'" + open, Escaped, Some(w)) == Scan(open, Plain, Some(w + [c])) == Scan(rest, Quoted, Some(w + [c]));
    } else {
      assert ([c] + rest)[1..] == rest;
    }
  }

  /** Inside quotes an escaped text adds exactly that text to the word. */
  lemma {:induction false} ScanEscaped(a: string, rest: string, w: string)
    ensures Scan(Escape(a) + rest, Quoted, Some(w)) == Scan(rest, Quoted, Some(w + a))
  {
    if a == "" {
      assert Escape(a) + rest == rest && w + a == w;
    } else {
      var k := |a| - 1;
      assert Escape(a) + rest == Escape(a[..k]) + (EscapeChar(a[k]) + rest);
      ScanEscaped(a[..k], EscapeChar(a[k]) + rest, w);
      ScanEscapedChar(a[k], rest, w + a[..k]);
      assert w + a[..k] + [a[k]] == w + a;
    }
  }

  /** A quoted argument is a word by itself, whatever it contains. */
  lemma ScanQuoted(a: string, rest: string)
    ensures Scan(Quote(a) + rest, Plain, None) == Scan(rest, Plain, Some(a))
  {
    var s := Quote(a) + rest;
    assert s[0] == '\'' && s[1..] == Escape(a) + ("'" + rest);
    ScanEscaped(a, "'" + rest, "");
    assert "" + a == a;
    assert ("'" + rest)[1..] == rest;
  }

  /** A blank ends the word before a quoted argument. */
  lemma ScanNextQuoted(a: string, b: string, rest: string)
    ensures Scan(" " + (Quote(b) + rest), Plain, Some(a)) == WithWord(Some(a), Scan(rest, Plain, Some(b)))
  {
    hide Quote;
    ScanQuoted(b, rest);
    assert (" " + (Quote(b) + rest))[1..] == Quote(b) + rest;
  }

  lemma {:induction false} ScanJoined(args: seq<string>, rest: string)
    requires args != []
    ensures Scan(Join(args) + rest, Plain, None) ==
            Ahead(args[..|args| - 1], Scan(rest, Plain, Some(args[|args| - 1])))
  {
    hide Quote, Scan;
    var k := |args| - 1;
    if k == 0 {
      ScanQuoted(args[0], rest);
      AheadNone(Scan(rest, Plain, Some(args[0])));
    } else {
      var a, b := args[k - 1], args[k];
      var tail := " " + (Quote(b) + rest);
      assert Join(args) + rest == Join(args[..k]) + tail;
      ScanJoined(args[..k], tail);
      ScanNextQuoted(a, b, rest);
      AheadOne(args[..k - 1], a, Scan(rest, Plain, Some(b)));
      assert args[..k][..k - 1] == args[..k - 1] && args[..k - 1] + [a] == args[..k];
    }
  }

  lemma AheadNone(rest: Option<seq<string>>)
    ensures Ahead([], rest) == rest
  {
    if rest.Some? {
      assert [] + rest.value == rest.value;
    }
  }

  function Ahead(words: seq<string>, rest: Option<seq<string>>): Option<seq<string>> {
    if rest.None? then None else Some(words + rest.value)
  }

  lemma AheadOne(words: seq<string>, word: string, rest: Option<seq<string>>)
    ensures Ahead(words, WithWord(Some(word), rest)) == Ahead(words + [word], rest)
  {
    if rest.Some? {
      assert words + ([word] + rest.value) == (words + [word]) + rest.value;
    }
  }

  /** Splitting what shellJoin makes gives back exactly the arguments, whatever they are. */
  lemma JoinReadsBack(args: seq<string>)
    ensures Words(Join(args)) == Some(args)
  {
    if args != [] {
      ScanJoined(args, "");
      assert Join(args) + "" == Join(args);
      assert args[..|args| - 1] + [args[|args| - 1]] == args;
    }
  }

  /** Different argument lists never make the same command. */
  lemma JoinInjective(a: seq<string>, b: seq<string>)
    requires Join(a) == Join(b)
    ensures a == b
  {
    JoinReadsBack(a);
    JoinReadsBack(b);
  }

  /** Nothing in the arguments reaches what a command puts after them. */
  lemma JoinedArgumentsStayApart(args: seq<string>, rest: string)
    ensures Words(Join(args) + " " + rest) == Ahead(args, Words(rest))
  {
    var tail := " " + rest;
    assert Join(args) + " " + rest == Join(args) + tail;
    assert tail[1..] == rest;
    if args == [] {
      assert Join(args) + tail == tail;
      assert Words(rest).Some? ==> [] + Words(rest).value == Words(rest).value;
    } else {
      ScanJoined(args, tail);
      AheadOne(args[..|args| - 1], args[|args| - 1], Words(rest));
      assert args[..|args| - 1] + [args[|args| - 1]] == args;
    }
  }
}
