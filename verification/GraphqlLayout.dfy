/**
 What the lexer promises about whole texts: it splits at a line break, and it reads
 back any layout of a token sequence.
 */
module GraphqlLayout {
  import opened Results
  import opened Text
  import opened GraphqlLexer
  import opened GraphqlStrings

  // ----- Adding text behind a lexeme

  lemma {:induction false} RunStops(s: string, rest: string, p: char -> bool)
    requires rest == "" || !p(rest[0])
    ensures Run(s + rest, p) == Run(s, p)
  {
    if s != "" && p(s[0]) {
      assert (s + rest)[1..] == s[1..] + rest;
      RunStops(s[1..], rest, p);
    } else if s == "" {
      assert s + rest == rest;
    }
  }

  lemma {:induction false} BlockLengthStable(s: string, rest: string)
    requires BlockLength(s).Some?
    ensures BlockLength(s + rest) == BlockLength(s)
  {
    if !Quotes(s) {
      assert (s + rest)[1..] == s[1..] + rest;
      BlockLengthStable(s[1..], rest);
      assert !Quotes(s + rest) by {
        assert BlockLength(s[1..]).Some?;
      }
    }
  }

  lemma EscapeStable(s: string, rest: string)
    requires s != "" && s[0] == '\\' && Escape(s).Ok?
    ensures Escape(s + rest) == Escape(s)
  {
    if s[1] == 'u' {
      assert (s + rest)[2..6] == s[2..6];
    }
  }

  lemma {:induction false} StringBodyStable(s: string, rest: string)
    requires StringBody(s).Ok?
    ensures StringBody(s + rest) == StringBody(s)
  {
    if s[0] == '"' {
    } else if s[0] != '\\' {
      assert (s + rest)[1..] == s[1..] + rest;
      StringBodyStable(s[1..], rest);
    } else {
      var n := Escape(s).value.1;
      EscapeStable(s, rest);
      assert (s + rest)[n..] == s[n..] + rest;
      StringBodyStable(s[n..], rest);
    }
  }

  /** The only string literal of two characters is the empty one. */
  lemma TwoQuotes(s: string)
    requires s != "" && s[0] == '"' && StringLiteral(s).Ok?
    ensures |s| >= 2 && (|s| == 2 ==> s == "\"\"")
  {
    if |s| == 2 {
      var body := s[1..];
      assert body[1..] == "";
      assert StringBody(body).Ok? && body[0] == '"';
    }
  }

  lemma StringLiteralStable(s: string, rest: string)
    requires s != "" && s[0] == '"' && StringLiteral(s).Ok?
    requires s == "\"\"" ==> rest == "" || rest[0] != '"'
    ensures StringLiteral(s + rest) == StringLiteral(s)
  {
    var all := s + rest;
    if Quotes(s) {
      assert all[3..] == s[3..] + rest;
      BlockLengthStable(s[3..], rest);
      var n := BlockLength(s[3..]).value;
      assert all[3..3 + n] == s[3..3 + n];
    } else {
      assert all[1..] == s[1..] + rest;
      StringBodyStable(s[1..], rest);
      assert !Quotes(all) by {
        TwoQuotes(s);
        assert |s| >= 3 ==> all[1] == s[1] && all[2] == s[2];
        assert |s| == 2 && rest != "" ==> all[2] == rest[0];
      }
    }
  }

  // ----- What may follow what

  predicate IsLetter(c: char) {
    'a' <= c <= 'z' || 'A' <= c <= 'Z' || c == '_'
  }

  predicate IsDecimal(c: char) {
    c in "0123456789"
  }

  /** Whether a following character would become part of the lexeme that the text is. */
  predicate Fuses(s: string, c: char)
    requires s != ""
  {
    if s[0] == '#' then c != '\n'
    else if s[0] == '"' then s == "\"\"" && c == '"'
    else if IsLetter(s[0]) then IsLetter(c) || IsDecimal(c)
    else (s[0] == '-' || IsDecimal(s[0])) && (IsDecimal(c) || c in ".eE+-")
  }

  lemma CharacterClasses(c: char)
    ensures IsDecimal(c) <==> IsDigit(c)
    ensures IsLetter(c) <==> IsNameStart(c)
    ensures IsNameRune(c) <==> IsLetter(c) || IsDecimal(c)
    ensures IsNumberRune(c) <==> IsDecimal(c) || c in ".eE+-"
    ensures IsIgnored(c) <==> c in " \t\r\n,\U{FEFF}"
    ensures IsPunctuation(c) <==> c in "{}()[]:=$!|&@"
  {
    assert IsDigit(c) ==> c == "0123456789"[(c - '0') as nat];
    var marks := "{}()[]:=$!|&@";
    assert marks[0] == '{' && marks[1] == '}' && marks[2] == '(' && marks[3] == ')' && marks[4] == '[' && marks[5] == ']' && marks[6] == ':';
    assert marks[7] == '=' && marks[8] == '$' && marks[9] == '!' && marks[10] == '|' && marks[11] == '&' && marks[12] == '@';
    var ignored := " \t\r\n,\U{FEFF}";
    assert ignored[0] == ' ' && ignored[1] == '\t' && ignored[2] == '\r' && ignored[3] == '\n' && ignored[4] == ',' && ignored[5] == '\U{FEFF}';
    var others := ".eE+-";
    assert others[0] == '.' && others[1] == 'e' && others[2] == 'E' && others[3] == '+' && others[4] == '-';
  }

  /** A lexeme is not changed by what follows it, unless the next character fuses with it. */
  lemma FirstStable(s: string, rest: string, num: string -> bool)
    requires s != "" && !First(s, num).Bad?
    requires rest == "" || !Fuses(s, rest[0])
    ensures First(s + rest, num) == First(s, num)
  {
    hide StringLiteral, Run;
    var c := s[0];
    var all := s + rest;
    CharacterClasses(c);
    if rest != "" {
      CharacterClasses(rest[0]);
    }
    hide IsDecimal, IsLetter, IsNameRune, IsNumberRune;
    assert all[0] == c;
    if IsIgnored(c) {
    } else if c == '#' {
      RunStops(s, rest, NotNewline);
    } else if c == '"' {
      StringLiteralStable(s, rest);
    } else if IsNameStart(c) {
      RunStops(s, rest, IsNameRune);
      var n := Run(s, IsNameRune);
      assert all[..n] == s[..n];
    } else if c == '-' || IsDigit(c) {
      assert all[1..] == s[1..] + rest;
      RunStops(s[1..], rest, IsNumberRune);
      var n := 1 + Run(s[1..], IsNumberRune);
      assert all[..n] == s[..n];
    }
  }

  // ----- Lexing is a homomorphism on texts joined by a line break

  /**
   If `a` lexes, then `a`, a line break and `b` lex to the tokens of `a` followed by
   whatever `b` lexes to, be it tokens or an error. This covers an `a` that ends in a
   comment, an empty string or a block string.
   */
  lemma {:induction false} TokensOfJoin(a: string, b: string, num: string -> bool)
    requires Tokens(a, num).Ok?
    ensures Tokens(a + "\n" + b, num) == Prepend(Tokens(a, num).value, Tokens(b, num))
    decreases |a|
  {
    if a == "" {
      assert a + "\n" + b == "\n" + b;
      assert ("\n" + b)[1..] == b;
      PrependNothing(Tokens(b, num));
    } else {
      var rest := "\n" + b;
      var n := First(a, num).length;
      assert a + "\n" + b == a + rest;
      FirstStable(a, rest, num);
      assert (a + rest)[n..] == a[n..] + "\n" + b;
      TokensOfJoin(a[n..], b, num);
      if First(a, num).Lexed? {
        PrependTwice([First(a, num).token], Tokens(a[n..], num).value, Tokens(b, num));
      }
    }
  }

  /** The condition on `a` is needed: an unterminated block string can be closed by `b`. */
  lemma JoinNeedsALexedFirstPart(num: string -> bool)
    ensures Tokens("\"\"\"", num).Err?
    ensures Tokens("\"\"\"" + "\n" + "\"\"\"", num) == Ok([Str("")])
  {
    var q := "\"\"\"";
    assert q[3..] == "";
    var s := q + "\n" + q;
    assert s[3..] == "\n" + q;
    assert BlockLength("\n" + q) == Some(1) by {
      assert ("\n" + q)[1..] == q;
    }
    assert s[3..4] == "\n" && "\n"[1..] == "";
    assert s[7..] == "";
    assert First(s, num) == Lexed(Str(""), 7);
    assert Tokens(s[7..], num) == Ok([]);
    assert [Str("")] + [] == [Str("")];
  }

  // ----- Only well-formed tokens come out of the lexer

  predicate IsName(s: string) {
    s != "" && IsLetter(s[0]) && forall i | 0 <= i < |s| :: IsLetter(s[i]) || IsDecimal(s[i])
  }

  predicate IsNumber(s: string, num: string -> bool) {
    s != "" && (s[0] == '-' || IsDecimal(s[0])) && (forall i | 1 <= i < |s| :: IsDecimal(s[i]) || s[i] in ".eE+-") && num(s)
  }

  predicate ValidToken(t: Token, num: string -> bool) {
    match t
    case Eof => false
    case Name(text) => IsName(text)
    case Punct(mark) => mark in "{}()[]:=$!|&@"
    case Str(_) => true
    case Number(text) => IsNumber(text, num)
  }

  /** The text is one of the ways to write the token: a string on one line or as a block, any other token as itself. */
  ghost predicate SpellsToken(t: Token, s: string, num: string -> bool) {
    ValidToken(t, num) &&
    match t
    case Eof => false
    case Name(text) => s == text
    case Punct(mark) => s == [mark]
    case Str(text) => LineLiteral(text, s) || BlockLiteral(text, s)
    case Number(text) => s == text
  }

  lemma {:induction false} RunAll(s: string, p: char -> bool)
    ensures Run(s, p) == |s| <==> forall i | 0 <= i < |s| :: p(s[i])
  {
    if s != "" && p(s[0]) {
      RunAll(s[1..], p);
      assert forall i | 1 <= i < |s| :: s[i] == s[1..][i - 1];
    }
  }

  lemma NameIff(s: string)
    ensures IsName(s) <==> s != "" && IsNameStart(s[0]) && Run(s, IsNameRune) == |s|
  {
    RunAll(s, IsNameRune);
    forall i | 0 <= i < |s| ensures IsNameRune(s[i]) <==> IsLetter(s[i]) || IsDecimal(s[i]) {
      CharacterClasses(s[i]);
    }
  }

  lemma NumberIff(s: string, num: string -> bool)
    ensures IsNumber(s, num) <==> s != "" && (s[0] == '-' || IsDigit(s[0])) && Run(s[1..], IsNumberRune) == |s| - 1 && num(s)
  {
    if s != "" {
      CharacterClasses(s[0]);
      RunAll(s[1..], IsNumberRune);
      forall i | 1 <= i < |s| ensures IsNumberRune(s[1..][i - 1]) <==> IsDecimal(s[i]) || s[i] in ".eE+-" {
        CharacterClasses(s[i]);
      }
      if forall i | 1 <= i < |s| :: IsDecimal(s[i]) || s[i] in ".eE+-" {
        forall i | 0 <= i < |s[1..]| ensures IsNumberRune(s[1..][i]) {
          assert IsNumberRune(s[1..][i + 1 - 1]);
        }
      }
    }
  }

  /** A text is read as one token, and as nothing more, exactly when it is a way to write that token. */
  lemma TokenIff(t: Token, s: string, num: string -> bool)
    requires s != ""
    ensures First(s, num) == Lexed(t, |s|) <==> SpellsToken(t, s, num)
  {
    hide StringLiteral, Run, LineLiteral, BlockLiteral, IsName, IsNumber, IsIgnored, IsPunctuation;
    if SpellsToken(t, s, num) {
      StartsAs(t, s, num);
    }
    NameIff(s);
    NumberIff(s, num);
    assert s[..|s|] == s;
    if t.Str? && s[0] == '"' {
      LiteralIff(s, t.text);
    }
    if t.Punct? {
      CharacterClasses(t.mark);
    }
    hide IsNameStart, IsDigit;
  }

  /** Which kind of token a text can be is told by its first character. */
  lemma StartsAs(t: Token, s: string, num: string -> bool)
    requires s != "" && SpellsToken(t, s, num)
    ensures !IsIgnored(s[0]) && s[0] != '#' && s[0] != '.'
    ensures t.Str? <==> s[0] == '"'
    ensures t.Name? <==> IsNameStart(s[0])
    ensures t.Number? <==> s[0] == '-' || IsDigit(s[0])
    ensures t.Punct? <==> IsPunctuation(s[0])
  {
    hide Spells, Trims, IsDecimal, IsLetter;
    CharacterClasses(s[0]);
    match t {
      case Name(_) =>
      case Punct(mark) => assert s[0] == mark && IsPunctuation(mark);
      case Number(_) =>
      case Str(_) => assert ThreeAt(s, 0) ==> s[0] == s[0..3][0];
    }
  }

  // ----- What is read as a token is one

  /** What a lexeme is does not depend on what follows it. */
  lemma FirstCut(s: string, num: string -> bool)
    requires s != "" && First(s, num).Lexed?
    ensures var n := First(s, num).length;
            n > 0 && First(s[..n], num) == First(s, num) && SpellsToken(First(s, num).token, s[..n], num)
  {
    hide StringLiteral, Run, SpellsToken, IsNameStart, IsDigit, IsIgnored, IsPunctuation;
    var n := First(s, num).length;
    var cut := s[..n];
    assert cut[0] == s[0] && cut[..n] == cut;
    if s[0] == '"' {
      LiteralCut(s);
    } else if IsNameStart(s[0]) {
      RunOfRun(s, IsNameRune);
    } else if s[0] == '-' || IsDigit(s[0]) {
      RunOfRun(s[1..], IsNumberRune);
      assert cut[1..] == s[1..][..n - 1];
    }
    TokenIff(First(s, num).token, cut, num);
  }

  lemma RunOfRun(s: string, p: char -> bool)
    ensures Run(s[..Run(s, p)], p) == Run(s, p)
  {
    RunAll(s[..Run(s, p)], p);
  }

  lemma LiteralCut(s: string)
    requires s != "" && s[0] == '"' && StringLiteral(s).Ok?
    ensures var b := StringLiteral(s).value;
            StringLiteral(s[..b.length]) == Ok(b)
  {
    hide StringBody, BlockLength, Spells;
    var b := StringLiteral(s).value;
    var n := b.length;
    var cut := s[..n];
    if Quotes(s) {
      assert cut[3..] == s[3..][..n - 3];
      CloseIff(s[3..], n - 6);
      CloseIff(cut[3..], n - 6);
      forall i: nat | i <= n - 6 ensures ThreeAt(cut[3..], i) <==> ThreeAt(s[3..], i) {
        ThreeInPrefix(s[3..], n - 3, i);
      }
      assert cut[3..3 + (n - 6)] == s[3..3 + (n - 6)];
    } else {
      BodyIff(s[1..], b.text, n - 1);
      BodyIff(cut[1..], b.text, n - 1);
      assert cut[1..][..n - 2] == s[1..][..n - 2];
      assert !Quotes(cut);
    }
  }

  lemma ThreeInPrefix(s: string, n: nat, i: nat)
    requires i + 3 <= n <= |s|
    ensures ThreeAt(s[..n], i) <==> ThreeAt(s, i)
  {
    assert s[..n][i..i + 3] == s[i..i + 3];
  }

  lemma {:induction false} TokensAreValid(s: string, num: string -> bool)
    requires Tokens(s, num).Ok?
    ensures forall t | t in Tokens(s, num).value :: ValidToken(t, num)
    decreases |s|
  {
    if s != "" {
      if First(s, num).Lexed? {
        FirstCut(s, num);
      }
      TokensAreValid(s[First(s, num).length..], num);
    }
  }

  // ----- Laying tokens out

  /** The length of the line that a text starts with. */
  function LineLength(s: string): (n: nat)
    ensures n <= |s|
  {
    if s == "" || s[0] == '\n' then 0 else 1 + LineLength(s[1..])
  }

  lemma {:induction false} LineIsRun(s: string)
    ensures LineLength(s) == Run(s, NotNewline)
  {
    if s != "" && s[0] != '\n' {
      LineIsRun(s[1..]);
    }
  }

  /** Ignored characters and comments, each comment with the line break that ends it, unless it ends the text. */
  predicate Blanks(s: string, last: bool)
    decreases |s|
  {
    s == "" ||
    (s[0] in " \t\r\n,\U{FEFF}" && Blanks(s[1..], last)) ||
    (s[0] == '#' && (last || LineLength(s) < |s|) && LineLength(s) > 0 && Blanks(s[LineLength(s)..], last))
  }

  /** The texts of tokens with what stands behind each: `gaps[i]` follows text i. */
  function Layout(texts: seq<string>, gaps: seq<string>): string
    requires |gaps| == |texts|
  {
    if texts == [] then "" else texts[0] + (gaps[0] + Layout(texts[1..], gaps[1..]))
  }

  /** The two texts must not be written without anything between them. */
  predicate NeedGap(s: string, u: string) {
    s != "" && u != "" && Fuses(s, u[0])
  }

  /** Blanks behind each text, and some wherever the next one would fuse with it. */
  predicate Separated(texts: seq<string>, gaps: seq<string>) {
    |gaps| == |texts| &&
    (forall i | 0 <= i < |gaps| :: Blanks(gaps[i], i + 1 == |gaps|)) &&
    forall i | 0 <= i < |texts| - 1 && gaps[i] == "" :: !NeedGap(texts[i], texts[i + 1])
  }

  ghost predicate AllSpelled(ts: seq<Token>, texts: seq<string>, num: string -> bool) {
    |texts| == |ts| && forall i | 0 <= i < |ts| :: SpellsToken(ts[i], texts[i], num)
  }

  lemma SpelledIsNotEmpty(t: Token, s: string, num: string -> bool)
    requires SpellsToken(t, s, num)
    ensures s != ""
  {}

  lemma {:induction false} BlanksVanish(s: string, rest: string, num: string -> bool)
    requires Blanks(s, rest == "")
    ensures Tokens(s + rest, num) == Tokens(rest, num)
    decreases |s|
  {
    if s == "" {
      assert s + rest == rest;
    } else {
      CharacterClasses(s[0]);
      LineIsRun(s);
      var n := if IsIgnored(s[0]) then 1 else Run(s, NotNewline);
      if !IsIgnored(s[0]) {
        RunCut(s, rest, NotNewline);
      }
      assert First(s + rest, num) == Blank(n);
      assert (s + rest)[n..] == s[n..] + rest;
      BlanksVanish(s[n..], rest, num);
    }
  }

  lemma {:induction false} RunCut(s: string, rest: string, p: char -> bool)
    requires Run(s, p) < |s| || rest == ""
    ensures Run(s + rest, p) == Run(s, p)
  {
    if rest == "" {
      assert s + rest == s;
    } else if p(s[0]) {
      assert (s + rest)[1..] == s[1..] + rest;
      RunCut(s[1..], rest, p);
    }
  }

  /** A token in front of any other text is read as that token exactly when what follows does not fuse with it. */
  lemma FusesIff(t: Token, s: string, rest: string, num: string -> bool)
    requires SpellsToken(t, s, num)
    ensures s != ""
    ensures First(s + rest, num) == Lexed(t, |s|) <==> rest == "" || !Fuses(s, rest[0])
  {
    hide StringLiteral, SpellsToken;
    SpelledIsNotEmpty(t, s, num);
    TokenIff(t, s, num);
    if rest == "" || !Fuses(s, rest[0]) {
      FirstStable(s, rest, num);
    } else {
      FusedIsLonger(t, s, rest, num);
    }
  }

  lemma FusedIsLonger(t: Token, s: string, rest: string, num: string -> bool)
    requires s != "" && First(s, num) == Lexed(t, |s|) && rest != "" && Fuses(s, rest[0])
    ensures First(s + rest, num) != Lexed(t, |s|)
  {
    hide StringBody, BlockLength;
    var all := s + rest;
    CharacterClasses(s[0]);
    CharacterClasses(rest[0]);
    hide IsLetter, IsDecimal;
    if s[0] == '"' {
      assert Quotes(all);
    } else if IsNameStart(s[0]) {
      RunPast(s, rest, IsNameRune);
    } else {
      assert all[1..] == s[1..] + rest;
      RunPast(s[1..], rest, IsNumberRune);
    }
  }

  lemma {:induction false} RunPast(s: string, rest: string, p: char -> bool)
    requires Run(s, p) == |s| && rest != "" && p(rest[0])
    ensures Run(s + rest, p) > |s|
  {
    if s == "" {
      assert s + rest == rest;
    } else {
      assert (s + rest)[1..] == s[1..] + rest;
      RunPast(s[1..], rest, p);
    }
  }

  /** Lexing undoes every layout of spelled tokens that keeps fusing ones apart. */
  lemma {:induction false} LayoutReadsBack(ts: seq<Token>, texts: seq<string>, gaps: seq<string>, num: string -> bool)
    requires AllSpelled(ts, texts, num) && Separated(texts, gaps)
    ensures Tokens(Layout(texts, gaps), num) == Ok(ts)
  {
    hide First, SpellsToken, Fuses;
    if ts != [] {
      var s := texts[0];
      var tail := Layout(texts[1..], gaps[1..]);
      var rest := gaps[0] + tail;
      NextDoesNotFuse(ts, texts, gaps, num);
      FusesIff(ts[0], s, rest, num);
      assert (s + rest)[|s|..] == rest;
      if |ts| == 1 {
        assert tail == "";
      } else {
        SpelledIsNotEmpty(ts[1], texts[1], num);
      }
      BlanksVanish(gaps[0], tail, num);
      LayoutReadsBack(ts[1..], texts[1..], gaps[1..], num);
      assert [ts[0]] + ts[1..] == ts;
    }
  }

  lemma NextDoesNotFuse(ts: seq<Token>, texts: seq<string>, gaps: seq<string>, num: string -> bool)
    requires ts != [] && AllSpelled(ts, texts, num) && Separated(texts, gaps)
    ensures var rest := gaps[0] + Layout(texts[1..], gaps[1..]);
            texts[0] != "" && (rest == "" || !Fuses(texts[0], rest[0]))
  {
    hide SpellsToken;
    SpelledIsNotEmpty(ts[0], texts[0], num);
    if gaps[0] == "" && |ts| > 1 {
      SpelledIsNotEmpty(ts[1], texts[1], num);
      assert !NeedGap(texts[0], texts[1]);
    } else if gaps[0] != "" {
      GapDoesNotFuse(ts[0], texts[0], gaps[0], |gaps| == 1, num);
    }
  }

  lemma GapDoesNotFuse(t: Token, s: string, gap: string, last: bool, num: string -> bool)
    requires SpellsToken(t, s, num) && gap != "" && Blanks(gap, last)
    ensures s != "" && !Fuses(s, gap[0])
  {
    hide SpellsToken;
    SpelledIsNotEmpty(t, s, num);
    StartsAs(t, s, num);
    CharacterClasses(s[0]);
    CharacterClasses(gap[0]);
  }

  // ----- The lexer exactly

  /** The text is the tokens written down in some way, after some blanks. */
  ghost predicate IsLayout(s: string, ts: seq<Token>, num: string -> bool) {
    exists lead, texts, gaps :: LaidOut(s, ts, lead, texts, gaps, num)
  }

  ghost predicate LaidOut(s: string, ts: seq<Token>, lead: string, texts: seq<string>, gaps: seq<string>, num: string -> bool) {
    AllSpelled(ts, texts, num) && Separated(texts, gaps) && Blanks(lead, ts == []) && s == lead + Layout(texts, gaps)
  }

  /** A text lexes to the tokens exactly when it is one of the ways to write them. */
  lemma TokensIff(s: string, ts: seq<Token>, num: string -> bool)
    ensures Tokens(s, num) == Ok(ts) <==> IsLayout(s, ts, num)
  {
    hide Tokens, LaidOut;
    if IsLayout(s, ts, num) {
      var lead, texts, gaps :| LaidOut(s, ts, lead, texts, gaps, num);
      LaidOutReadsBack(s, ts, lead, texts, gaps, num);
    }
    if Tokens(s, num) == Ok(ts) {
      var lead, texts, gaps := Unlay(s, num);
    }
  }

  lemma LaidOutReadsBack(s: string, ts: seq<Token>, lead: string, texts: seq<string>, gaps: seq<string>, num: string -> bool)
    requires LaidOut(s, ts, lead, texts, gaps, num)
    ensures Tokens(s, num) == Ok(ts)
  {
    hide Tokens, SpellsToken, Blanks;
    if ts != [] {
      SpelledIsNotEmpty(ts[0], texts[0], num);
    }
    BlanksVanish(lead, Layout(texts, gaps), num);
    LayoutReadsBack(ts, texts, gaps, num);
  }

  lemma {:induction false} Unlay(s: string, num: string -> bool) returns (lead: string, texts: seq<string>, gaps: seq<string>)
    requires Tokens(s, num).Ok?
    ensures LaidOut(s, Tokens(s, num).value, lead, texts, gaps, num)
    decreases |s|
  {
    hide First, SpellsToken, Fuses, Blanks, LaidOut;
    if s == "" {
      lead, texts, gaps := "", [], [];
      NothingLaidOut(num);
    } else {
      var n := First(s, num).length;
      lead, texts, gaps := Unlay(s[n..], num);
      if First(s, num).Blank? {
        BlankBefore(s, Tokens(s, num).value, lead, texts, gaps, num);
        lead := s[..n] + lead;
      } else {
        TokenBefore(s, Tokens(s[n..], num).value, lead, texts, gaps, num);
        lead, texts, gaps := "", [s[..n]] + texts, [lead] + gaps;
      }
    }
  }

  lemma NothingLaidOut(num: string -> bool)
    ensures LaidOut("", [], "", [], [], num)
  {}

  lemma BlankBefore(s: string, ts: seq<Token>, lead: string, texts: seq<string>, gaps: seq<string>, num: string -> bool)
    requires s != "" && First(s, num).Blank? && LaidOut(s[First(s, num).length..], ts, lead, texts, gaps, num)
    ensures LaidOut(s, ts, s[..First(s, num).length] + lead, texts, gaps, num)
  {
    hide SpellsToken, NeedGap;
    CharacterClasses(s[0]);
    var n := First(s, num).length;
    var more := s[..n] + lead;
    assert s == s[..n] + s[n..];
    if s[0] == '#' {
      if s[n..] != "" {
        LeadIsNotEmpty(s[n..], ts, lead, texts, gaps, num);
      } else if ts != [] {
        SpelledIsNotEmpty(ts[0], texts[0], num);
      }
      assert ts == [] || lead != "";
      LineCut(s[..n], lead);
      assert more[0] == '#' && LineLength(more) == n > 0 && more[n..] == lead;
      assert Blanks(more, ts == []);
      assert s == more + Layout(texts, gaps);
    } else {
      assert more[1..] == lead;
    }
  }

  /** A text that starts with a line break starts with blanks. */
  lemma LeadIsNotEmpty(s: string, ts: seq<Token>, lead: string, texts: seq<string>, gaps: seq<string>, num: string -> bool)
    requires s != "" && s[0] == '\n' && LaidOut(s, ts, lead, texts, gaps, num)
    ensures lead != "" && lead[0] == '\n'
  {
    hide SpellsToken;
    CharacterClasses('\n');
    if lead == "" && ts != [] {
      SpelledIsNotEmpty(ts[0], texts[0], num);
      StartsAs(ts[0], texts[0], num);
    }
  }

  lemma {:induction false} LineCut(line: string, rest: string)
    requires forall i | 0 <= i < |line| :: line[i] != '\n'
    requires rest == "" || rest[0] == '\n'
    ensures LineLength(line + rest) == |line|
  {
    if line == "" {
      assert line + rest == rest;
    } else {
      assert (line + rest)[1..] == line[1..] + rest;
      LineCut(line[1..], rest);
    }
  }

  lemma NoBlanks()
    ensures Blanks("", false) && Blanks("", true)
  {}

  lemma TokenBefore(s: string, ts: seq<Token>, lead: string, texts: seq<string>, gaps: seq<string>, num: string -> bool)
    requires s != "" && First(s, num).Lexed? && LaidOut(s[First(s, num).length..], ts, lead, texts, gaps, num)
    ensures var n := First(s, num).length;
            LaidOut(s, [First(s, num).token] + ts, "", [s[..n]] + texts, [lead] + gaps, num)
  {
    hide First, SpellsToken, Fuses, Blanks;
    var t, n := First(s, num).token, First(s, num).length;
    FirstCut(s, num);
    assert s == s[..n] + s[n..];
    FusesIff(t, s[..n], s[n..], num);
    var texts', gaps' := [s[..n]] + texts, [lead] + gaps;
    assert texts'[1..] == texts && gaps'[1..] == gaps;
    assert Layout(texts', gaps') == s[..n] + (lead + Layout(texts, gaps));
    NoBlanks();
    if lead == "" && texts != [] {
      SpelledIsNotEmpty(ts[0], texts[0], num);
      assert s[n..][0] == texts[0][0];
    }
  }

  /** Every sequence of valid tokens can be written down. */
  lemma {:induction false} LayItOut(ts: seq<Token>, num: string -> bool) returns (s: string)
    requires forall t | t in ts :: ValidToken(t, num)
    ensures IsLayout(s, ts, num)
  {
    hide ValidToken, LaidOut;
    if ts == [] {
      s := "";
      NothingLaidOut(num);
    } else {
      var text := SpellToken(ts[0], num);
      var more := LayItOut(ts[1..], num);
      var lead, texts, gaps :| LaidOut(more, ts[1..], lead, texts, gaps, num);
      s := text + (" " + more);
      SpacedBefore(ts[0], text, more, ts[1..], lead, texts, gaps, num);
      assert ts == [ts[0]] + ts[1..];
    }
  }

  lemma SpacedBefore(t: Token, text: string, s: string, ts: seq<Token>, lead: string, texts: seq<string>, gaps: seq<string>, num: string -> bool)
    requires SpellsToken(t, text, num) && LaidOut(s, ts, lead, texts, gaps, num)
    ensures LaidOut(text + (" " + s), [t] + ts, "", [text] + texts, [" " + lead] + gaps, num)
  {
    hide SpellsToken, NeedGap;
    NoBlanks();
    assert (" " + lead)[1..] == lead && " "[0] == ' ' && ' ' in " \t\r\n,\U{FEFF}";
    var texts', gaps' := [text] + texts, [" " + lead] + gaps;
    assert texts'[1..] == texts && gaps'[1..] == gaps;
    assert text + (" " + s) == Layout(texts', gaps');
  }

  lemma SpellToken(t: Token, num: string -> bool) returns (s: string)
    requires ValidToken(t, num)
    ensures SpellsToken(t, s, num)
  {
    match t {
      case Name(text) => s := text;
      case Punct(mark) => s := [mark];
      case Number(text) => s := text;
      case Str(text) =>
        var hows := SpellIt(text);
        var w := WrittenAll(text, hows);
        s := "\"" + w + "\"";
        assert s[1..|s| - 1] == w;
    }
  }
}
