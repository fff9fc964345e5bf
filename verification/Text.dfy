/**
 The pieces of Go's strings, strconv and unicode packages that the modelled code uses.

 A string is a sequence of Unicode scalar values, which is what a Go string holds as long as
 it is valid UTF-8. Strings compare by their scalar values; that is also the order of their
 bytes. White space is what unicode.IsSpace says, so trimming and splitting at white space
 treat the spaces beyond ASCII like the others. Numbers are those that strconv.Atoi reads:
 an optional sign and decimal digits, within 64 bits. Padding is what a layout or a format
 with a fixed number of digits prints.
 */
module Text {
  import opened Results

  /** White space as Go's unicode.IsSpace defines it; strings.TrimSpace removes it. */
  predicate IsSpace(c: char) {
    c == '\t' || c == '\n' || c == '\r' || c == ' ' || c == '\U{B}' || c == '\U{C}' || c == '\U{85}' || c == '\U{A0}' ||
    c == '\U{1680}' || '\U{2000}' <= c <= '\U{200A}' || c == '\U{2028}' || c == '\U{2029}' ||
    c == '\U{202F}' || c == '\U{205F}' || c == '\U{3000}'
  }

  /** The same by code points: the ASCII controls and blank, and the spaces and separators beyond ASCII. */
  lemma SpacesAre(c: char)
    ensures IsSpace(c) <==>
            9 <= c as int <= 13 || c as int == 32 || 8192 <= c as int <= 8202 ||
            c as int in {133, 160, 5760, 8232, 8233, 8239, 8287, 12288}
  {}

  function TrimLeft(s: string): string {
    if s != "" && IsSpace(s[0]) then TrimLeft(s[1..]) else s
  }

  function TrimRight(s: string): string {
    if s != "" && IsSpace(s[|s| - 1]) then TrimRight(s[..|s| - 1]) else s
  }

  function TrimSpace(s: string): string {
    TrimRight(TrimLeft(s))
  }

  /** `t` is what is left of `s` without the white space at both ends. */
  ghost predicate Trims(s: string, t: string) {
    exists i, j :: 0 <= i <= j <= |s| && IsMiddle(s, t, i, j)
  }

  ghost predicate IsMiddle(s: string, t: string, i: nat, j: nat)
    requires i <= j <= |s|
  {
    t == s[i..j] && (forall k | 0 <= k < i || j <= k < |s| :: IsSpace(s[k])) &&
    (t != "" ==> !IsSpace(t[0]) && !IsSpace(t[|t| - 1]))
  }

  lemma {:induction false} LeftEnd(s: string) returns (i: nat)
    ensures i <= |s| && TrimLeft(s) == s[i..] && (forall k | 0 <= k < i :: IsSpace(s[k])) && (i < |s| ==> !IsSpace(s[i]))
  {
    i := 0;
    if s != "" && IsSpace(s[0]) {
      var m := LeftEnd(s[1..]);
      i := m + 1;
    }
  }

  lemma {:induction false} RightEnd(s: string) returns (j: nat)
    ensures j <= |s| && TrimRight(s) == s[..j] && (forall k | j <= k < |s| :: IsSpace(s[k])) && (j > 0 ==> !IsSpace(s[j - 1]))
  {
    j := |s|;
    if s != "" && IsSpace(s[|s| - 1]) {
      j := RightEnd(s[..|s| - 1]);
    } else {
      assert s[..j] == s;
    }
  }

  lemma TrimIff(s: string, t: string)
    ensures TrimSpace(s) == t <==> Trims(s, t)
  {
    hide IsSpace;
    var i := LeftEnd(s);
    var m := RightEnd(s[i..]);
    assert s[i..][..m] == s[i..i + m];
    assert forall k | i <= k < |s| :: s[k] == s[i..][k - i];
    assert IsMiddle(s, TrimSpace(s), i, i + m);
    if Trims(s, t) {
      var a, b :| 0 <= a <= b <= |s| && IsMiddle(s, t, a, b);
      SameMiddle(s, t, a, b, TrimSpace(s), i, i + m);
    }
  }

  lemma SameMiddle(s: string, t: string, a: nat, b: nat, u: string, i: nat, j: nat)
    requires a <= b <= |s| && i <= j <= |s| && IsMiddle(s, t, a, b) && IsMiddle(s, u, i, j)
    ensures t == u
  {
    hide IsSpace;
    if t != "" {
      assert !IsSpace(s[a]) && !IsSpace(s[b - 1]);
    }
    if u != "" {
      assert !IsSpace(s[i]) && !IsSpace(s[j - 1]);
    }
  }

  /** strings.Fields: the maximal runs of characters that are not white space. */
  function Fields(s: string): seq<string> {
    FieldsFrom(s, "")
  }

  /** The same with a field already begun. */
  function FieldsFrom(s: string, begun: string): seq<string> {
    if s == "" then if begun == "" then [] else [begun]
    else if IsSpace(s[0]) then (if begun == "" then [] else [begun]) + FieldsFrom(s[1..], "")
    else FieldsFrom(s[1..], begun + [s[0]])
  }

  /** strings.Split with a one-character separator. */
  function Split(s: string, sep: char): (parts: seq<string>)
    ensures |parts| >= 1
  {
    if s == "" then [""]
    else
      var rest := Split(s[1..], sep);
      if s[0] == sep then [""] + rest else [[s[0]] + rest[0]] + rest[1..]
  }

  predicate HasPrefix(s: string, prefix: string) {
    |prefix| <= |s| && s[..|prefix|] == prefix
  }

  // ----- The order of strings

  /** The first difference decides, and a proper prefix comes first. */
  predicate Before(a: string, b: string) {
    if b == "" then false
    else if a == "" then true
    else a[0] < b[0] || (a[0] == b[0] && Before(a[1..], b[1..]))
  }

  lemma {:induction false} BeforeTotal(a: string, b: string)
    ensures a == b || Before(a, b) || Before(b, a)
    ensures !(Before(a, b) && Before(b, a))
    ensures !Before(a, a)
  {
    if a != "" {
      BeforeTotal(a[1..], a[1..]);
      if b != "" {
        BeforeTotal(a[1..], b[1..]);
        assert a == [a[0]] + a[1..] && b == [b[0]] + b[1..];
      }
    }
  }

  lemma {:induction false} BeforeTransitive(a: string, b: string, c: string)
    requires Before(a, b) && Before(b, c)
    ensures Before(a, c)
  {
    if a != "" && a[0] == b[0] == c[0] {
      BeforeTransitive(a[1..], b[1..], c[1..]);
    }
  }

  // ----- Decimal numbers

  predicate IsDigit(c: char) {
    '0' <= c <= '9'
  }

  predicate AllDigits(s: string) {
    forall i | 0 <= i < |s| :: IsDigit(s[i])
  }

  /** The value of a run of digits. */
  function Value(s: string): nat
    requires AllDigits(s)
  {
    if s == "" then 0 else Value(s[..|s| - 1]) * 10 + (s[|s| - 1] - '0') as nat
  }

  function Digit(n: nat): char
    requires n < 10
  {
    '0' + n as char
  }

  /** The last `width` decimal digits of `n`. */
  function Pad(n: nat, width: nat): (s: string)
    ensures |s| == width && AllDigits(s)
  {
    if width == 0 then "" else Pad(n / 10, width - 1) + [Digit(n % 10)]
  }

  function Ten(n: nat): nat {
    if n == 0 then 1 else Ten(n - 1) * 10
  }

  lemma {:induction false} PadReadsBack(n: nat, width: nat)
    requires n < Ten(width)
    ensures Value(Pad(n, width)) == n
  {
    if width > 0 {
      PadReadsBack(n / 10, width - 1);
      assert Pad(n, width)[..width - 1] == Pad(n / 10, width - 1);
    }
  }

  lemma {:induction false} ValuePrintsBack(s: string)
    requires AllDigits(s)
    ensures Pad(Value(s), |s|) == s && Value(s) < Ten(|s|)
  {
    if s != "" {
      var front, d := s[..|s| - 1], (s[|s| - 1] - '0') as nat;
      ValuePrintsBack(front);
      assert IsDigit(s[|s| - 1]);
      assert Value(s) / 10 == Value(front) && Value(s) % 10 == d;
      assert s == front + [Digit(d)];
    }
  }

  const INT64_LIMIT: int := 0x8000_0000_0000_0000

  /** strconv.Atoi: an optional sign and at least one digit, within the 64-bit range. */
  function Atoi(s: string): Option<int> {
    var signed := s != "" && (s[0] == '+' || s[0] == '-');
    var digits := if signed then s[1..] else s;
    if digits == "" || !AllDigits(digits) then None
    else if s[0] == '-' then
      if Value(digits) <= INT64_LIMIT then Some(0 - Value(digits) as int) else None
    else
      if Value(digits) < INT64_LIMIT then Some(Value(digits)) else None
  }

  /** Digits alone are a number, as long as it fits. */
  lemma AtoiOfDigits(s: string)
    requires s != "" && AllDigits(s)
    ensures Atoi(s) == if Value(s) < INT64_LIMIT then Some(Value(s)) else None
  {
    assert IsDigit(s[0]);
  }

  /** Trimming changes nothing when neither end is white space. */
  lemma NothingToTrim(s: string)
    requires s != "" && !IsSpace(s[0]) && !IsSpace(s[|s| - 1])
    ensures TrimSpace(s) == s
  {}
}
