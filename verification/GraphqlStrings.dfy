/**
 How string literals are written: every way to spell a character, and that the lexer of
 src/graphql/resolvers.go reads exactly these spellings.
 */
module GraphqlStrings {
  import opened Results
  import opened Text
  import opened GraphqlLexer

  // ----- Spelling one character

  /** A hexadecimal digit, its letter in either case. */
  predicate IsHexDigit(c: char, d: nat) {
    d < 16 && (c == "0123456789abcdef"[d] || c == "0123456789ABCDEF"[d])
  }

  /** The digits of a number, found by dividing by 16 from the end. */
  predicate IsHex(s: string, n: nat) {
    if s == "" then n == 0 else IsHexDigit(s[|s| - 1], n % 16) && IsHex(s[..|s| - 1], n / 16)
  }

  predicate IsSurrogate(code: nat) {
    0xD800 <= code <= 0xDFFF
  }

  /** The letter after the backslash of each short form, and the code of the character it stands for. */
  const SHORT_FORMS: seq<(char, nat)> :=
    [('"', 34), ('\\', 92), ('/', 47), ('b', 8), ('f', 12), ('n', 10), ('r', 13), ('t', 9)]

  datatype Spelling = Plainly | Shortly(form: nat) | ByCode(digits: string, code: nat)

  /** What the spelling looks like. */
  function Written(c: char, how: Spelling): string {
    match how
    case Plainly => [c]
    case Shortly(form) => if form < |SHORT_FORMS| then ['\\', SHORT_FORMS[form].0] else ""
    case ByCode(digits, _) => "\\u" + digits
  }

  /** A character stands for itself unless it has a meaning in the literal; a surrogate becomes U+FFFD. */
  predicate CanSpell(c: char, how: Spelling) {
    match how
    case Plainly => c != '"' && c != '\\' && c != '\n'
    case Shortly(form) => form < |SHORT_FORMS| && c as nat == SHORT_FORMS[form].1
    case ByCode(digits, code) =>
      |digits| == 4 && IsHex(digits, code) && c as nat == if IsSurrogate(code) then 0xFFFD else code
  }

  /** A text spelled character by character. */
  function WrittenAll(text: string, hows: seq<Spelling>): string
    requires |hows| == |text|
  {
    if text == "" then "" else Written(text[0], hows[0]) + WrittenAll(text[1..], hows[1..])
  }

  predicate CanSpellAll(text: string, hows: seq<Spelling>) {
    |hows| == |text| && forall i | 0 <= i < |text| :: CanSpell(text[i], hows[i])
  }

  /** One of the ways to write a text between double quotes. */
  ghost predicate Spells(text: string, s: string) {
    exists hows :: CanSpellAll(text, hows) && s == WrittenAll(text, hows)
  }

  /** Every text has a spelling. */
  lemma {:induction false} SpellIt(text: string) returns (hows: seq<Spelling>)
    ensures CanSpellAll(text, hows)
  {
    hows := [];
    if text != "" {
      var c := text[0];
      var how := if c == '"' then Shortly(0) else if c == '\\' then Shortly(1) else if c == '\n' then Shortly(5) else Plainly;
      assert SHORT_FORMS[0] == ('"', 34) && SHORT_FORMS[1] == ('\\', 92) && SHORT_FORMS[5] == ('n', 10);
      var more := SpellIt(text[1..]);
      hows := [how] + more;
      assert CanSpell(c, how);
    }
  }

  // ----- Digits

  lemma DigitIff(c: char, d: nat)
    ensures HexValue(c) == Some(d) <==> IsHexDigit(c, d)
  {}

  lemma {:induction false} HexIff(s: string, n: nat)
    requires |s| == 4
    ensures Hex4(s) == Some(n) <==> IsHex(s, n)
  {
    var a, b, c, d := n / 16 / 16 / 16, n / 16 / 16 % 16, n / 16 % 16, n % 16;
    assert s[..3][..2] == s[..2] && s[..2][..1] == s[..1] && s[..1][..0] == "";
    assert IsHex(s[..1], a) <==> IsHexDigit(s[0], a % 16) && a / 16 == 0;
    assert IsHex(s[..2], n / 16 / 16) <==> IsHexDigit(s[1], b) && IsHex(s[..1], a);
    assert IsHex(s[..3], n / 16) <==> IsHexDigit(s[2], c) && IsHex(s[..2], n / 16 / 16);
    assert IsHex(s, n) <==> IsHexDigit(s[3], d) && IsHex(s[..3], n / 16);
    DigitIff(s[0], a % 16);
    DigitIff(s[1], b);
    DigitIff(s[2], c);
    DigitIff(s[3], d);
    FourDigits(n, s);
  }

  lemma FourDigits(n: nat, s: string)
    requires |s| == 4
    ensures Hex4(s) == Some(n) <==>
            HexValue(s[0]) == Some(n / 16 / 16 / 16) && HexValue(s[1]) == Some(n / 16 / 16 % 16) &&
            HexValue(s[2]) == Some(n / 16 % 16) && HexValue(s[3]) == Some(n % 16)
  {
    hide HexValue;
    if Hex4(s) == Some(n) {
      var a, b, c, d := HexValue(s[0]).value, HexValue(s[1]).value, HexValue(s[2]).value, HexValue(s[3]).value;
      assert n == ((a * 16 + b) * 16 + c) * 16 + d;
      assert n / 16 == (a * 16 + b) * 16 + c && n / 16 / 16 == a * 16 + b && n / 16 / 16 / 16 == a;
    }
  }

  lemma HexIsShort(s: string, n: nat)
    requires |s| == 4 && IsHex(s, n)
    ensures n < 0x1_0000
  {
    HexIff(s, n);
  }

  // ----- The lexer reads what was spelled, and nothing else

  /** However a character is spelled, it is read as that character. */
  lemma SpellingDecodes(c: char, how: Spelling, rest: string)
    requires CanSpell(c, how)
    ensures StringBody(Written(c, how) + rest) == Extend(c, |Written(c, how)|, StringBody(rest))
  {
    hide Hex4;
    var w := Written(c, how);
    var s := w + rest;
    assert s[|w|..] == rest;
    match how {
      case Plainly =>
      case Shortly(form) =>
        assert s[0] == '\\' && s[1] == SHORT_FORMS[form].0;
        assert Escape(s) == Ok((c, 2));
      case ByCode(digits, code) =>
        assert s[..2] == "\\u" && s[2..6] == digits;
        HexIff(digits, code);
        assert Escape(s) == Ok((c, 6));
    }
  }

  /** Every escape that is read is a spelling. */
  lemma EscapeIsSpelling(s: string) returns (how: Spelling)
    requires s != "" && s[0] == '\\' && Escape(s).Ok?
    ensures !how.Plainly? && CanSpell(Escape(s).value.0, how)
    ensures Written(Escape(s).value.0, how) == s[..Escape(s).value.1]
  {
    hide Hex4;
    var (c, n) := Escape(s).value;
    if s[1] == 'u' {
      how := ByCode(s[2..6], Hex4(s[2..6]).value);
      HexIff(s[2..6], Hex4(s[2..6]).value);
      assert s[..6] == "\\u" + s[2..6];
    } else {
      how := Shortly(ShortForm(s[1]));
      assert s[..2] == ['\\', s[1]];
    }
  }

  lemma ShortFormOf(c: char)
    requires SimpleEscape(c).Some?
    ensures exists k :: 0 <= k < |SHORT_FORMS| && SHORT_FORMS[k] == (c, SimpleEscape(c).value as nat)
  {
    var k := if c == '"' then 0 else if c == '\\' then 1 else if c == '/' then 2 else if c == 'b' then 3
             else if c == 'f' then 4 else if c == 'n' then 5 else if c == 'r' then 6 else 7;
    assert SHORT_FORMS[k] == (c, SimpleEscape(c).value as nat);
  }

  ghost function ShortForm(c: char): (k: nat)
    requires SimpleEscape(c).Some?
    ensures k < |SHORT_FORMS| && SHORT_FORMS[k] == (c, SimpleEscape(c).value as nat)
  {
    ShortFormOf(c);
    var k :| 0 <= k < |SHORT_FORMS| && SHORT_FORMS[k] == (c, SimpleEscape(c).value as nat);
    k
  }

  lemma {:induction false} SpelledIsRead(text: string, hows: seq<Spelling>, rest: string)
    requires CanSpellAll(text, hows)
    ensures StringBody(WrittenAll(text, hows) + ("\"" + rest)) == Ok(Body(text, |WrittenAll(text, hows)| + 1))
  {
    hide StringBody, CanSpell, Written;
    var close := "\"" + rest;
    if text == "" {
      assert "" + close == close;
      QuoteEnds(rest);
    } else {
      var w, more := Written(text[0], hows[0]), WrittenAll(text[1..], hows[1..]);
      SpelledIsRead(text[1..], hows[1..], rest);
      SpellingDecodes(text[0], hows[0], more + close);
      assert w + more + close == w + (more + close);
      assert [text[0]] + text[1..] == text;
    }
  }

  lemma QuoteEnds(rest: string)
    ensures StringBody("\"" + rest) == Ok(Body("", 1))
  {}

  lemma {:induction false} ReadIsSpelled(s: string) returns (hows: seq<Spelling>)
    requires StringBody(s).Ok?
    ensures var b := StringBody(s).value;
            CanSpellAll(b.text, hows) && WrittenAll(b.text, hows) + "\"" == s[..b.length]
    decreases |s|
  {
    hide Escape;
    if s[0] == '"' {
      hows := [];
      assert s[..1] == "\"";
    } else {
      var how, c, n := Plainly, s[0], 1;
      if s[0] == '\\' {
        how := EscapeIsSpelling(s);
        c, n := Escape(s).value.0, Escape(s).value.1;
      }
      var more := ReadIsSpelled(s[n..]);
      hows := [how] + more;
      var b := StringBody(s[n..]).value;
      ReadOneMore(s, c, how, n, b, more);
    }
  }

  lemma ReadOneMore(s: string, c: char, how: Spelling, n: nat, b: Body, hows: seq<Spelling>)
    requires n <= |s| && b.length <= |s[n..]| && CanSpell(c, how) && Written(c, how) == s[..n]
    requires CanSpellAll(b.text, hows) && WrittenAll(b.text, hows) + "\"" == s[n..][..b.length]
    ensures CanSpellAll([c] + b.text, [how] + hows)
    ensures WrittenAll([c] + b.text, [how] + hows) + "\"" == s[..n + b.length]
  {
    hide CanSpell, Written;
    assert ([c] + b.text)[1..] == b.text && ([how] + hows)[1..] == hows;
    assert s[..n + b.length] == s[..n] + s[n..][..b.length];
  }

  /**
   A string literal on one line is read as a text exactly when a spelling of that text and the
   closing quote are what was read.
   */
  lemma BodyIff(s: string, text: string, n: nat)
    ensures StringBody(s) == Ok(Body(text, n)) <==>
            0 < n <= |s| && s[n - 1] == '"' && Spells(text, s[..n - 1])
  {
    hide StringBody, WrittenAll, CanSpell;
    if StringBody(s) == Ok(Body(text, n)) {
      var hows := ReadIsSpelled(s);
      assert s[..n] == WrittenAll(text, hows) + "\"";
      assert s[..n - 1] == WrittenAll(text, hows);
    }
    if 0 < n <= |s| && s[n - 1] == '"' && Spells(text, s[..n - 1]) {
      var hows :| CanSpellAll(text, hows) && s[..n - 1] == WrittenAll(text, hows);
      SpelledIsRead(text, hows, s[n..]);
      assert s == WrittenAll(text, hows) + ("\"" + s[n..]);
    }
  }

  /** A backslash and four characters are an escape exactly when these are the hexadecimal digits of a number. */
  lemma UnicodeEscapeIff(digits: string, rest: string)
    requires |digits| == 4
    ensures Escape("\\u" + digits + rest).Ok? <==> exists code: nat :: IsHex(digits, code)
    ensures Escape("\\u" + digits + rest).Err? ==> Escape("\\u" + digits + rest) == Err(InvalidUnicode)
  {
    hide Hex4, IsHex;
    var s := "\\u" + digits + rest;
    assert s[0] == '\\' && s[1] == 'u' && s[2..6] == digits;
    if code: nat :| IsHex(digits, code) {
      HexIff(digits, code);
    }
    if Hex4(digits).Some? {
      HexIff(digits, Hex4(digits).value);
    }
  }

  // ----- Whole literals

  /** Three double quotes stand at this place. */
  predicate ThreeAt(s: string, i: nat) {
    i + 3 <= |s| && s[i..i + 3] == "\"\"\""
  }

  lemma ThreeIff(s: string)
    ensures Quotes(s) <==> ThreeAt(s, 0)
  {}

  lemma {:induction false} CloseIff(s: string, n: nat)
    ensures BlockLength(s) == Some(n) <==> ThreeAt(s, n) && forall i: nat | i < n :: !ThreeAt(s, i)
  {
    ThreeIff(s);
    if s != "" {
      forall i: nat ensures ThreeAt(s, i + 1) <==> ThreeAt(s[1..], i) {
        if i + 4 <= |s| {
          assert s[i + 1..i + 4] == s[1..][i..i + 3];
        }
      }
      if n > 0 {
        CloseIff(s[1..], n - 1);
        assert (forall i: nat | i < n :: !ThreeAt(s, i)) <==> !ThreeAt(s, 0) && forall i: nat | i < n - 1 :: !ThreeAt(s[1..], i) by {
          forall i: nat | 0 < i < n ensures ThreeAt(s, i) <==> ThreeAt(s[1..], i - 1) {
            assert ThreeAt(s, i - 1 + 1) <==> ThreeAt(s[1..], i - 1);
          }
        }
      }
    }
  }

  /** A literal on one line: quotes around a spelling. */
  ghost predicate LineLiteral(text: string, s: string) {
    |s| >= 2 && s[0] == '"' && s[|s| - 1] == '"' && Spells(text, s[1..|s| - 1])
  }

  /** A block literal: triple quotes around a body without any, of which the outer white space does not count. */
  ghost predicate BlockLiteral(text: string, s: string) {
    |s| >= 6 && ThreeAt(s, 0) && ThreeAt(s[3..], |s| - 6) && (forall i: nat | i < |s| - 6 :: !ThreeAt(s[3..], i)) &&
    Trims(s[3..|s| - 3], text)
  }

  lemma SpellingStarts(text: string, w: string)
    requires Spells(text, w) && w != ""
    ensures w[0] != '"'
  {
    var hows :| CanSpellAll(text, hows) && w == WrittenAll(text, hows);
    assert CanSpell(text[0], hows[0]);
  }

  lemma LineIsNoBlock(text: string, s: string)
    requires LineLiteral(text, s)
    ensures !Quotes(s)
  {
    if |s| > 2 {
      SpellingStarts(text, s[1..|s| - 1]);
      assert s[1] == s[1..|s| - 1][0];
    }
  }

  /** The text is a string literal for `text`, and nothing more, exactly when it is one of the two. */
  lemma LiteralIff(s: string, text: string)
    requires s != "" && s[0] == '"'
    ensures StringLiteral(s) == Ok(Body(text, |s|)) <==> LineLiteral(text, s) || BlockLiteral(text, s)
  {
    hide StringBody, BlockLength, Spells, Trims, TrimSpace;
    ThreeIff(s);
    if Quotes(s) {
      BlockIff(s, text);
      if LineLiteral(text, s) {
        LineIsNoBlock(text, s);
      }
    } else {
      BodyIff(s[1..], text, |s| - 1);
      if |s| >= 2 {
        assert s[1..][..|s| - 2] == s[1..|s| - 1];
      }
    }
  }

  lemma BlockIff(s: string, text: string)
    requires Quotes(s)
    ensures StringLiteral(s) == Ok(Body(text, |s|)) <==> BlockLiteral(text, s)
  {
    hide BlockLength, Trims, TrimSpace;
    ThreeIff(s);
    if |s| >= 6 {
      CloseIff(s[3..], |s| - 6);
      assert s[3..3 + (|s| - 6)] == s[3..|s| - 3];
      TrimIff(s[3..|s| - 3], text);
    }
  }
}
