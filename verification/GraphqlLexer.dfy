/** The lexer of src/graphql/resolvers.go. */
module GraphqlLexer {
  import opened Results
  import opened Text

  // A document is a sequence of Unicode scalar values, which is what Go's []rune conversion
  // produces. Whether the text of a number literal is accepted is decided by
  // strconv.ParseFloat in the original; here it is the parameter `num`, so everything below
  // holds for any such decision.

  datatype Token =
    | Eof
    | Name(text: string)
    | Punct(mark: char)
    | Str(text: string)
    | Number(text: string)

  datatype LexError =
    | UnterminatedBlock
    | UnterminatedString
    | UnterminatedEscape
    | TruncatedUnicode
    | InvalidUnicode
    | InvalidEscape(c: char)
    | InvalidNumber(text: string)
    | FragmentSpread
    | Unexpected(c: char)

  // ----- Character classes

  predicate IsIgnored(c: char) {
    c == ' ' || c == '\t' || c == '\r' || c == '\n' || c == ',' || c == '\U{FEFF}'
  }

  predicate IsNameStart(c: char) {
    c == '_' || 'a' <= c <= 'z' || 'A' <= c <= 'Z'
  }

  predicate IsNameRune(c: char) {
    IsNameStart(c) || IsDigit(c)
  }

  predicate IsNumberRune(c: char) {
    IsDigit(c) || c == '.' || c == 'e' || c == 'E' || c == '+' || c == '-'
  }

  predicate IsPunctuation(c: char) {
    c == '{' || c == '}' || c == '(' || c == ')' || c == '[' || c == ']' || c == ':' ||
    c == '=' || c == '$' || c == '!' || c == '|' || c == '&' || c == '@'
  }

  predicate NotNewline(c: char) {
    c != '\n'
  }

  // ----- Reference lexer: what one lexeme at the front of the text is

  /** The length of the longest prefix whose characters all satisfy `p`. */
  function Run(s: string, p: char -> bool): (n: nat)
    ensures n <= |s|
    ensures forall i | 0 <= i < n :: p(s[i])
    ensures n < |s| ==> !p(s[n])
  {
    if s != "" && p(s[0]) then 1 + Run(s[1..], p) else 0
  }

  predicate Quotes(s: string) {
    |s| >= 3 && s[0] == '"' && s[1] == '"' && s[2] == '"'
  }

  /** The number of characters before the first closing triple quote. */
  function BlockLength(s: string): (r: Option<nat>)
    ensures r.Some? ==> r.value + 3 <= |s|
  {
    if s == "" then None
    else if Quotes(s) then Some(0)
    else match BlockLength(s[1..])
      case None => None
      case Some(n) => Some(n + 1)
  }

  function HexValue(c: char): (r: Option<nat>)
    ensures r.Some? ==> r.value < 16
  {
    if '0' <= c <= '9' then Some((c - '0') as nat)
    else if 'a' <= c <= 'f' then Some(10 + (c - 'a') as nat)
    else if 'A' <= c <= 'F' then Some(10 + (c - 'A') as nat)
    else None
  }

  /** strconv.ParseUint with base 16 on exactly four characters. */
  function Hex4(s: string): (r: Option<nat>)
    requires |s| == 4
    ensures r.Some? ==> r.value < 0x1_0000
  {
    match (HexValue(s[0]), HexValue(s[1]), HexValue(s[2]), HexValue(s[3]))
    case (Some(a), Some(b), Some(c), Some(d)) => Some(((a * 16 + b) * 16 + c) * 16 + d)
    case _ => None
  }

  /** strings.Builder.WriteRune stores the replacement character for a surrogate. */
  function RuneOf(code: nat): char
    requires code < 0x1_0000
  {
    if 0xD800 <= code < 0xE000 then '\U{FFFD}' else code as char
  }

  function SimpleEscape(c: char): Option<char> {
    if c == '"' then Some('"')
    else if c == '\\' then Some('\\')
    else if c == '/' then Some('/')
    else if c == 'b' then Some('\U{8}')
    else if c == 'f' then Some('\U{C}')
    else if c == 'n' then Some('\n')
    else if c == 'r' then Some('\r')
    else if c == 't' then Some('\t')
    else None
  }

  /** A decoded string body and the number of characters read, closing quote included. */
  datatype Body = Body(text: string, length: nat)

  function Extend(c: char, n: nat, rest: Result<Body, LexError>): Result<Body, LexError> {
    match rest
    case Ok(b) => Ok(Body([c] + b.text, n + b.length))
    case Err(e) => Err(e)
  }

  /** Decodes the escape at the front of a text: its character and its length. */
  function Escape(s: string): (r: Result<(char, nat), LexError>)
    requires s != "" && s[0] == '\\'
    ensures r.Ok? ==> 1 <= r.value.1 <= |s|
  {
    if |s| < 2 then Err(UnterminatedEscape)
    else if s[1] != 'u' then
      match SimpleEscape(s[1])
      case Some(c) => Ok((c, 2))
      case None => Err(InvalidEscape(s[1]))
    else if |s| < 6 then Err(TruncatedUnicode)
    else
      match Hex4(s[2..6])
      case Some(code) => Ok((RuneOf(code), 6))
      case None => Err(InvalidUnicode)
  }

  /** Decodes a single-line string, starting after its opening quote. */
  function StringBody(s: string): (r: Result<Body, LexError>)
    ensures r.Ok? ==> 1 <= r.value.length <= |s|
  {
    if s == "" then Err(UnterminatedString)
    else if s[0] == '"' then Ok(Body("", 1))
    else if s[0] == '\n' then Err(UnterminatedString)
    else if s[0] != '\\' then Extend(s[0], 1, StringBody(s[1..]))
    else match Escape(s)
      case Ok((c, n)) => Extend(c, n, StringBody(s[n..]))
      case Err(e) => Err(e)
  }

  /** Decodes the string literal, block or single line, whose opening quote is s[0]. */
  function StringLiteral(s: string): (r: Result<Body, LexError>)
    requires s != "" && s[0] == '"'
    ensures r.Ok? ==> 1 <= r.value.length <= |s|
  {
    if Quotes(s) then
      match BlockLength(s[3..])
      case Some(n) => Ok(Body(TrimSpace(s[3..3 + n]), n + 6))
      case None => Err(UnterminatedBlock)
    else
      match StringBody(s[1..])
      case Ok(b) => Ok(Body(b.text, b.length + 1))
      case Err(e) => Err(e)
  }

  /** What stands at the front of a text: ignored characters, a token, or an error. */
  datatype Lexeme = Blank(length: nat) | Lexed(token: Token, length: nat) | Bad(error: LexError)

  function First(s: string, num: string -> bool): (l: Lexeme)
    requires s != ""
    ensures !l.Bad? ==> 1 <= l.length <= |s|
  {
    var c := s[0];
    if IsIgnored(c) then Blank(1)
    else if c == '#' then Blank(Run(s, NotNewline))
    else if c == '"' then
      match StringLiteral(s)
      case Ok(b) => Lexed(Str(b.text), b.length)
      case Err(e) => Bad(e)
    else if IsNameStart(c) then
      var n := Run(s, IsNameRune);
      Lexed(Name(s[..n]), n)
    else if c == '-' || IsDigit(c) then
      var n := 1 + Run(s[1..], IsNumberRune);
      if num(s[..n]) then Lexed(Number(s[..n]), n) else Bad(InvalidNumber(s[..n]))
    else if c == '.' then
      if |s| > 2 && s[1] == '.' && s[2] == '.' then Bad(FragmentSpread) else Bad(Unexpected(c))
    else if IsPunctuation(c) then Lexed(Punct(c), 1)
    else Bad(Unexpected(c))
  }

  function Prepend(ts: seq<Token>, r: Result<seq<Token>, LexError>): Result<seq<Token>, LexError> {
    match r
    case Ok(us) => Ok(ts + us)
    case Err(e) => Err(e)
  }

  /** The tokens of a text, without the end marker. */
  function Tokens(s: string, num: string -> bool): Result<seq<Token>, LexError>
    decreases |s|
  {
    if s == "" then Ok([])
    else match First(s, num)
      case Blank(n) => Tokens(s[n..], num)
      case Lexed(t, n) => Prepend([t], Tokens(s[n..], num))
      case Bad(e) => Err(e)
  }

  // ----- The lexer itself

  /** Where the body of a string ends and what it decodes to, as positions in the whole text. */
  function At(start: nat, r: Result<Body, LexError>): Result<(string, nat), LexError> {
    match r
    case Ok(b) => Ok((b.text, start + b.length))
    case Err(e) => Err(e)
  }

  function Later(n: nat, r: Option<nat>): Option<nat> {
    match r
    case None => None
    case Some(m) => Some(n + m)
  }

  /** The position of the first closing triple quote at or after `start`. */
  method FindClose(runes: string, start: nat) returns (r: Option<nat>)
    requires start <= |runes|
    ensures r == Later(start, BlockLength(runes[start..]))
  {
    var i := start;
    while i < |runes|
      invariant start <= i <= |runes|
      invariant Later(start, BlockLength(runes[start..])) == Later(i, BlockLength(runes[i..]))
    {
      ghost var tail := runes[i..];
      if runes[i] == '"' && i + 2 < |runes| && runes[i + 1] == '"' && runes[i + 2] == '"' {
        assert Quotes(tail);
        return Some(i);
      }
      assert !Quotes(tail) && tail[1..] == runes[i + 1..];
      i := i + 1;
    }
    return None;
  }

  /** The block form: everything up to the first closing triple quote, trimmed. */
  method LexBlock(runes: string, start: nat) returns (r: Result<(string, nat), LexError>)
    requires start < |runes| && Quotes(runes[start..])
    ensures r == At(start, StringLiteral(runes[start..]))
  {
    ghost var s := runes[start..];
    assert s[3..] == runes[start + 3..];
    var close := FindClose(runes, start + 3);
    match close {
      case None => return Err(UnterminatedBlock);
      case Some(i) =>
        assert s[3..i - start] == runes[start + 3..i];
        return Ok((TrimSpace(runes[start + 3..i]), i + 3));
    }
  }

  function Decoded(b: string, n: nat, rest: Result<Body, LexError>): Result<Body, LexError> {
    match rest
    case Ok(body) => Ok(Body(b + body.text, n + body.length))
    case Err(e) => Err(e)
  }

  lemma DecodedNothing(r: Result<Body, LexError>)
    ensures Decoded("", 0, r) == r
  {
    if r.Ok? {
      assert "" + r.value.text == r.value.text;
    }
  }

  lemma DecodedExtend(b: string, n: nat, c: char, m: nat, rest: Result<Body, LexError>)
    ensures Decoded(b, n, Extend(c, m, rest)) == Decoded(b + [c], n + m, rest)
  {
    if rest.Ok? {
      assert b + ([c] + rest.value.text) == (b + [c]) + rest.value.text;
    }
  }

  /** Decodes the escape whose backslash is at `start`. */
  method LexEscape(runes: string, start: nat) returns (r: Result<(char, nat), LexError>)
    requires start < |runes| && runes[start] == '\\'
    ensures r == Escape(runes[start..])
  {
    ghost var s := runes[start..];
    var i := start;
    if i + 1 >= |runes| {
      return Err(UnterminatedEscape);
    }
    i := i + 1;
    if runes[i] == 'u' {
      if i + 4 >= |runes| {
        return Err(TruncatedUnicode);
      }
      assert s[2..6] == runes[i + 1..i + 5];
      var code := Hex4(runes[i + 1..i + 5]);
      match code {
        case Some(value) => return Ok((RuneOf(value), 6));
        case None => return Err(InvalidUnicode);
      }
    }
    var simple := SimpleEscape(runes[i]);
    match simple {
      case Some(c) => return Ok((c, 2));
      case None => return Err(InvalidEscape(runes[i]));
    }
  }

  /** The single-line form, decoding escapes. */
  method LexLine(runes: string, start: nat) returns (r: Result<(string, nat), LexError>)
    requires start < |runes|
    ensures r == At(start + 1, StringBody(runes[start + 1..]))
  {
    hide Escape, Hex4, SimpleEscape;
    var i := start + 1;
    var b := "";
    DecodedNothing(StringBody(runes[start + 1..]));
    while i < |runes|
      invariant start + 1 <= i <= |runes|
      invariant StringBody(runes[start + 1..]) == Decoded(b, i - start - 1, StringBody(runes[i..]))
    {
      var c := runes[i];
      if c == '"' {
        assert b + "" == b;
        return Ok((b, i + 1));
      } else if c == '\n' {
        return Err(UnterminatedString);
      } else if c == '\\' {
        var decoded :- LexEscape(runes, i);
        DecodedExtend(b, i - start - 1, decoded.0, decoded.1, StringBody(runes[i..][decoded.1..]));
        b := b + [decoded.0];
        i := i + decoded.1;
      } else {
        DecodedExtend(b, i - start - 1, c, 1, StringBody(runes[i..][1..]));
        b := b + [c];
        i := i + 1;
      }
    }
    return Err(UnterminatedString);
  }

  /** Reads one string literal, block or single line, starting at the opening quote. */
  method LexString(runes: string, start: nat) returns (r: Result<(string, nat), LexError>)
    requires start < |runes| && runes[start] == '"'
    ensures r == At(start, StringLiteral(runes[start..]))
  {
    if start + 2 < |runes| && runes[start + 1] == '"' && runes[start + 2] == '"' {
      r := LexBlock(runes, start);
    } else {
      assert runes[start..][1..] == runes[start + 1..];
      r := LexLine(runes, start);
    }
  }

  /** Advances the index while characters satisfy `p`. */
  method SkipWhile(runes: string, start: nat, p: char -> bool) returns (i: nat)
    requires start <= |runes|
    ensures i == start + Run(runes[start..], p)
  {
    i := start;
    while i < |runes| && p(runes[i])
      invariant start <= i <= |runes|
      invariant Run(runes[start..], p) == i - start + Run(runes[i..], p)
    {
      i := i + 1;
    }
  }

  /** Reads whatever stands at position `i`: the body of the lexer's loop. */
  method LexAt(runes: string, i: nat, num: string -> bool) returns (l: Lexeme)
    requires i < |runes|
    ensures l == First(runes[i..], num)
  {
    ghost var s := runes[i..];
    var c := runes[i];
    if IsIgnored(c) {
      return Blank(1);
    } else if c == '#' {
      var next := SkipWhile(runes, i, NotNewline);
      return Blank(next - i);
    } else if c == '"' {
      var text := LexString(runes, i);
      match text {
        case Ok((decoded, next)) => return Lexed(Str(decoded), next - i);
        case Err(e) => return Bad(e);
      }
    } else if IsNameStart(c) {
      var next := SkipWhile(runes, i, IsNameRune);
      assert s[..next - i] == runes[i..next];
      return Lexed(Name(runes[i..next]), next - i);
    } else if c == '-' || IsDigit(c) {
      var next := SkipWhile(runes, i + 1, IsNumberRune);
      assert s[1..] == runes[i + 1..];
      assert s[..next - i] == runes[i..next];
      var text := runes[i..next];
      return if num(text) then Lexed(Number(text), next - i) else Bad(InvalidNumber(text));
    } else if c == '.' {
      if i + 2 < |runes| && runes[i + 1] == '.' && runes[i + 2] == '.' {
        return Bad(FragmentSpread);
      }
      return Bad(Unexpected(c));
    } else if IsPunctuation(c) {
      return Lexed(Punct(c), 1);
    } else {
      return Bad(Unexpected(c));
    }
  }

  /** Splits a document into tokens, ending with the end marker. */
  method Lex(runes: string, num: string -> bool) returns (r: Result<seq<Token>, LexError>)
    ensures r == match Tokens(runes, num)
                 case Ok(ts) => Ok(ts + [Eof])
                 case Err(e) => Err(e)
  {
    hide First;
    var out: seq<Token> := [];
    var i := 0;
    PrependNothing(Tokens(runes, num));
    while i < |runes|
      invariant 0 <= i <= |runes|
      invariant Tokens(runes, num) == Prepend(out, Tokens(runes[i..], num))
    {
      var l := LexAt(runes, i, num);
      match l {
        case Blank(n) =>
          i := i + n;
        case Lexed(t, n) =>
          PrependTwice(out, [t], Tokens(runes[i..][n..], num));
          out := out + [t];
          i := i + n;
        case Bad(e) =>
          return Err(e);
      }
    }
    assert out + [] == out;
    return Ok(out + [Eof]);
  }

  lemma PrependNothing(r: Result<seq<Token>, LexError>)
    ensures Prepend([], r) == r
  {
    if r.Ok? {
      assert [] + r.value == r.value;
    }
  }

  lemma PrependTwice(a: seq<Token>, b: seq<Token>, r: Result<seq<Token>, LexError>)
    ensures Prepend(a, Prepend(b, r)) == Prepend(a + b, r)
  {
    if r.Ok? {
      assert a + (b + r.value) == a + b + r.value;
    }
  }
}
