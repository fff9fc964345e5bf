/**
 The identifiers of src/logging/ulid.go: 48 bits of milliseconds and 80 bits of entropy as
 26 Crockford base-32 characters, and the generator that keeps them ascending.
 */
module Ulid {
  import opened Bytes
  import opened Results
  import opened Text

  // A text is a sequence of characters; a character outside the alphabet stands for whatever
  // bytes encode it, all of which the source refuses too.

  const ALPHABET: string := "0123456789ABCDEFGHJKMNPQRSTVWXYZ"
  const MAX_TIME: nat := 0x1_0000_0000_0000
  const MAX_ENTROPY: nat := 0x1_0000_0000_0000_0000_0000

  // ----- Base 32

  function Symbol(v: nat): char
    requires v < 32
  {
    ALPHABET[v]
  }

  function Power(n: nat): (p: nat)
    ensures p > 0
  {
    if n == 0 then 1 else Power(n - 1) * 32
  }

  lemma Powers()
    ensures Power(10) == 4 * MAX_TIME && Power(16) == MAX_ENTROPY
  {
    assert Power(5) == 0x200_0000;
    assert Power(10) == 4 * MAX_TIME;
    assert Power(15) == 0x800_0000_0000_0000_0000;
  }

  /** The last `len` base-32 digits of `n`, most significant first. */
  function Base32(n: nat, len: nat): (s: string)
    ensures |s| == len
  {
    if len == 0 then "" else Base32(n / 32, len - 1) + [Symbol(n % 32)]
  }

  /** A timestamp and an entropy value as an identifier. */
  function Encoding(ms: nat, entropy: nat): (id: string)
    ensures |id| == 26
  {
    Base32(ms, 10) + Base32(entropy, 16)
  }

  lemma ShiftedSum(a: nat, p: nat, b: nat)
    ensures (a * (p * 32) + b) / 32 == a * p + b / 32 && (a * (p * 32) + b) % 32 == b % 32
  {
    var x := a * p;
    assert a * (p * 32) == x * 32;
    assert (x * 32 + b) / 32 == x + b / 32;
  }

  lemma {:induction false} Base32Append(a: nat, p: nat, b: nat, q: nat)
    requires b < Power(q)
    ensures Base32(a, p) + Base32(b, q) == Base32(a * Power(q) + b, p + q)
  {
    hide Symbol;
    if q == 0 {
      assert Base32(a, p) + "" == Base32(a, p);
    } else {
      ShiftedSum(a, Power(q - 1), b);
      Base32Append(a, p, b / 32, q - 1);
      assert Base32(a, p) + Base32(b, q) == (Base32(a, p) + Base32(b / 32, q - 1)) + [Symbol(b % 32)];
    }
  }

  /** The characters of the alphabet ascend. */
  lemma AlphabetAscends(i: nat, j: nat)
    requires i < j < 32
    ensures Symbol(i) < Symbol(j)
  {
    assert forall k: nat | k < 10 :: ALPHABET[k] == '0' + k as char;
    assert forall k: nat | 10 <= k < 18 :: ALPHABET[k] == 'A' + (k - 10) as char;
    assert ALPHABET[18] == 'J' && ALPHABET[19] == 'K' && ALPHABET[20] == 'M' && ALPHABET[21] == 'N';
    assert forall k: nat | 22 <= k < 27 :: ALPHABET[k] == 'P' + (k - 22) as char;
    assert forall k: nat | 27 <= k < 32 :: ALPHABET[k] == 'V' + (k - 27) as char;
  }

  lemma {:induction false} BeforeSnoc(a: string, x: char, b: string, y: char)
    requires |a| == |b|
    ensures Before(a + [x], b + [y]) <==> Before(a, b) || (a == b && x < y)
  {
    if a != "" {
      BeforeSnoc(a[1..], x, b[1..], y);
      assert (a + [x])[1..] == a[1..] + [x] && (b + [y])[1..] == b[1..] + [y];
      assert a == [a[0]] + a[1..] && b == [b[0]] + b[1..];
    }
  }

  /** For numbers that fit, the order of the digit texts is the order of the numbers. */
  lemma {:induction false} Base32Order(n: nat, m: nat, len: nat)
    requires n < Power(len) && m < Power(len)
    ensures Before(Base32(n, len), Base32(m, len)) <==> n < m
    ensures Base32(n, len) == Base32(m, len) <==> n == m
  {
    hide Symbol;
    if len > 0 {
      Base32Order(n / 32, m / 32, len - 1);
      BeforeSnoc(Base32(n / 32, len - 1), Symbol(n % 32), Base32(m / 32, len - 1), Symbol(m % 32));
      if n % 32 < m % 32 {
        AlphabetAscends(n % 32, m % 32);
      } else if m % 32 < n % 32 {
        AlphabetAscends(m % 32, n % 32);
      }
      SnocEqual(Base32(n / 32, len - 1), Symbol(n % 32), Base32(m / 32, len - 1), Symbol(m % 32));
    }
  }

  lemma SnocEqual(a: string, x: char, b: string, y: char)
    ensures a + [x] == b + [y] <==> a == b && x == y
  {
    if a + [x] == b + [y] {
      assert a == (a + [x])[..|a|] && b == (b + [y])[..|b|];
      assert (a + [x])[|a|] == x && (b + [y])[|b|] == y;
    }
  }

  /** The order of identifiers is the order of their times and, within a millisecond, of their entropy. */
  lemma EncodingOrder(ms: nat, e: nat, ms': nat, e': nat)
    requires ms < MAX_TIME && ms' < MAX_TIME && e < MAX_ENTROPY && e' < MAX_ENTROPY
    ensures Before(Encoding(ms, e), Encoding(ms', e')) <==> ms < ms' || (ms == ms' && e < e')
    ensures Encoding(ms, e) == Encoding(ms', e') <==> ms == ms' && e == e'
  {
    hide Power, Base32, Before;
    Powers();
    PowerSum(10, 16);
    Base32Append(ms, 10, e, 16);
    Base32Append(ms', 10, e', 16);
    Base32Order(ms * MAX_ENTROPY + e, ms' * MAX_ENTROPY + e', 26);
  }

  lemma {:induction false} PowerSum(p: nat, q: nat)
    ensures Power(p + q) == Power(p) * Power(q)
  {
    if q > 0 {
      PowerSum(p, q - 1);
    }
  }

  // ----- Entropy

  /** The number that big-endian bytes spell. */
  function Number(bytes: seq<Byte>): nat {
    if bytes == [] then 0 else Number(bytes[..|bytes| - 1]) * 256 + bytes[|bytes| - 1]
  }

  function BytePower(n: nat): nat {
    if n == 0 then 1 else BytePower(n - 1) * 256
  }

  lemma {:induction false} NumberBound(bytes: seq<Byte>)
    ensures Number(bytes) < BytePower(|bytes|)
    ensures (forall i | 0 <= i < |bytes| :: bytes[i] == 255) ==> Number(bytes) == BytePower(|bytes|) - 1
  {
    if bytes != [] {
      NumberBound(bytes[..|bytes| - 1]);
    }
  }

  lemma TenBytes(bytes: seq<Byte>)
    requires |bytes| == 10
    ensures Number(bytes) < MAX_ENTROPY
    ensures (forall i | 0 <= i < 10 :: bytes[i] == 255) ==> Number(bytes) == MAX_ENTROPY - 1
  {
    NumberBound(bytes);
    assert BytePower(5) == 0x100_0000_0000;
    assert BytePower(10) == MAX_ENTROPY;
  }

  /** Adding one at byte `i` when the bytes after it were all 255 and become 0. */
  lemma {:induction false} Carry(a: seq<Byte>, b: seq<Byte>, i: nat)
    requires |a| == |b| && i < |a| && a[..i] == b[..i] && b[i] as int == a[i] as int + 1
    requires forall j | i < j < |a| :: a[j] == 255 && b[j] == 0
    ensures Number(b) == Number(a) + 1
  {
    var n := |a| - 1;
    if i == n {
      assert a[..n] == b[..n];
    } else {
      assert a[..n][..i] == a[..i] && b[..n][..i] == b[..i];
      Carry(a[..n], b[..n], i);
    }
  }

  /** All bytes were 255 and are 0. */
  lemma {:induction false} AllZero(b: seq<Byte>)
    requires forall j | 0 <= j < |b| :: b[j] == 0
    ensures Number(b) == 0
  {
    if b != [] {
      AllZero(b[..|b| - 1]);
    }
  }

  method IncrementEntropy(e: array<Byte>) returns (ok: bool)
    requires e.Length == 10
    modifies e
    ensures ok <==> old(Number(e[..])) + 1 < MAX_ENTROPY
    ensures Number(e[..]) == (old(Number(e[..])) + 1) % MAX_ENTROPY
  {
    ghost var was := e[..];
    TenBytes(was);
    var i := 9;
    while i >= 0
      invariant -1 <= i < 10
      invariant forall j | 0 <= j <= i :: e[j] == was[j]
      invariant forall j | i < j < 10 :: was[j] == 255 && e[j] == 0
    {
      e[i] := (e[i] as int + 1) % 256;
      if e[i] != 0 {
        Carry(was, e[..], i);
        TenBytes(e[..]);
        return true;
      }
      i := i - 1;
    }
    AllZero(e[..]);
    return false;
  }

  // ----- Bits

  /** Bit `k` of the bytes, most significant first. */
  function Bit(bytes: seq<Byte>, k: nat): (b: nat)
    requires k < 8 * |bytes|
    ensures b < 2
  {
    Shifted(bytes[k / 8], 7 - k % 8) % 2
  }

  /** A byte shifted right. */
  function Shifted(b: nat, places: nat): nat {
    if places == 0 then b else Shifted(b, places - 1) / 2
  }

  /** The number that the first `n` bits spell. */
  function FirstBits(bytes: seq<Byte>, n: nat): nat
    requires n <= 8 * |bytes|
  {
    if n == 0 then 0 else FirstBits(bytes, n - 1) * 2 + Bit(bytes, n - 1)
  }

  lemma ShiftedOut(b: Byte)
    ensures Shifted(b, 8) == 0
  {
    assert Shifted(b, 1) < 128;
    assert Shifted(b, 3) < 32;
    assert Shifted(b, 5) < 8;
    assert Shifted(b, 7) < 2;
  }

  lemma BitOfByte(bytes: seq<Byte>, k: nat, j: nat)
    requires k < |bytes| && j < 8
    ensures Bit(bytes, 8 * k + j) == Shifted(bytes[k], 7 - j) % 2
    ensures FirstBits(bytes, 8 * k + j + 1) == FirstBits(bytes, 8 * k + j) * 2 + Shifted(bytes[k], 7 - j) % 2
  {
    assert (8 * k + j) / 8 == k && (8 * k + j) % 8 == j;
  }

  /** The bits of a byte, read from the top, are its halvings in reverse. */
  lemma {:induction false} ByteOfBits(bytes: seq<Byte>, k: nat, j: nat)
    requires k < |bytes| && j <= 8
    ensures FirstBits(bytes, 8 * k + j) == FirstBits(bytes, 8 * k) * TwoTo(j) + Shifted(bytes[k], 8 - j)
  {
    hide FirstBits, Bit;
    var b := bytes[k];
    if j == 0 {
      ShiftedOut(b);
    } else {
      ByteOfBits(bytes, k, j - 1);
      BitOfByte(bytes, k, j - 1);
      assert Shifted(b, 9 - j) == Shifted(b, 8 - j) / 2;
      assert (FirstBits(bytes, 8 * k) * TwoTo(j - 1)) * 2 == FirstBits(bytes, 8 * k) * TwoTo(j);
    }
  }

  function TwoTo(n: nat): nat {
    if n == 0 then 1 else TwoTo(n - 1) * 2
  }

  /** Reading whole bytes bit by bit gives their number. */
  lemma {:induction false} AllBits(bytes: seq<Byte>, k: nat)
    requires k <= |bytes|
    ensures FirstBits(bytes, 8 * k) == Number(bytes[..k])
  {
    if k > 0 {
      AllBits(bytes, k - 1);
      ByteOfBits(bytes, k - 1, 8);
      assert TwoTo(4) == 16 && TwoTo(8) == 256;
      assert bytes[..k][..k - 1] == bytes[..k - 1];
    }
  }

  /** The first loop of encodeULID: shifts the time out five bits at a time, from the last character. */
  method EncodeTime(out: array<char>, ms: nat)
    requires out.Length == 26
    modifies out
    ensures out[..10] == Base32(ms, 10)
  {
    hide Base32, Symbol;
    var rest, i := ms, 9;
    while i >= 0
      invariant -1 <= i < 10
      invariant Base32(rest, i + 1) + out[i + 1..10] == Base32(ms, 10)
    {
      LowestDigit(rest, i, out[i + 1..10]);
      out[i] := Symbol(rest % 32);
      assert out[i..10] == [Symbol(rest % 32)] + out[i + 1..10];
      rest := rest / 32;
      i := i - 1;
    }
    NoDigits(rest);
  }

  /** The second loop: takes the entropy five bits at a time. */
  method EncodeEntropy(out: array<char>, entropy: array<Byte>)
    requires out.Length == 26 && entropy.Length == 10
    modifies out
    ensures out[..10] == old(out[..10])
    ensures out[10..] == Base32(Number(entropy[..]), 16)
  {
    hide Base32, FirstBits, Number, Symbol;
    ghost var bytes := entropy[..];
    NoDigits(FirstBits(bytes, 0));
    var i := 0;
    while i < 16
      invariant 0 <= i <= 16
      invariant out[..10] == old(out[..10])
      invariant out[10..10 + i] == Base32(FirstBits(bytes, 5 * i), i)
      invariant entropy[..] == bytes
    {
      var v := TakeFive(entropy, i);
      OneMoreDigit(FirstBits(bytes, 5 * i), v, i);
      out[10 + i] := Symbol(v);
      assert out[10..10 + i + 1] == out[10..10 + i] + [Symbol(v)];
      i := i + 1;
    }
    AllBits(bytes, 10);
    assert bytes[..10] == bytes;
  }

  /** A timestamp and ten bytes of entropy as text. */
  method EncodeULID(ms: nat, entropy: array<Byte>) returns (id: string)
    requires entropy.Length == 10
    ensures id == Encoding(ms, Number(entropy[..]))
  {
    hide Base32, Number;
    var out := new char[26](_ => '0');
    ghost var bytes := entropy[..];
    EncodeTime(out, ms);
    assert entropy[..] == bytes;
    EncodeEntropy(out, entropy);
    assert out[..] == out[..10] + out[10..];
    return out[..];
  }

  lemma NoDigits(n: nat)
    ensures Base32(n, 0) == ""
  {}

  lemma LowestDigit(n: nat, len: nat, s: string)
    ensures Base32(n, len + 1) + s == Base32(n / 32, len) + ([Symbol(n % 32)] + s)
  {
    hide Symbol;
  }

  lemma OneMoreDigit(n: nat, v: nat, len: nat)
    requires v < 32
    ensures Base32(n * 32 + v, len + 1) == Base32(n, len) + [Symbol(v)]
  {
    hide Symbol;
    assert (n * 32 + v) / 32 == n && (n * 32 + v) % 32 == v;
  }

  lemma NextBit(bytes: seq<Byte>, bit: nat)
    requires bit < 8 * |bytes|
    ensures FirstBits(bytes, bit + 1) == FirstBits(bytes, bit) * 2 + Shifted(bytes[bit / 8], 7 - bit % 8) % 2
  {}

  /** The inner loop: the bits 5i to 5i + 4 as one digit. */
  method TakeFive(entropy: array<Byte>, i: nat) returns (v: nat)
    requires entropy.Length == 10 && i < 16
    ensures v < 32 && FirstBits(entropy[..], 5 * i + 5) == FirstBits(entropy[..], 5 * i) * 32 + v
  {
    hide FirstBits, Bit;
    v := 0;
    ghost var bytes := entropy[..];
    ghost var n := FirstBits(bytes, 5 * i);
    var b := 0;
    while b < 5
      invariant 0 <= b <= 5 && 0 <= v < TwoTo(b)
      invariant FirstBits(bytes, 5 * i + b) == n * TwoTo(b) + v
    {
      var bit := 5 * i + b;
      NextBit(bytes, bit);
      assert (n * TwoTo(b) + v) * 2 == n * TwoTo(b + 1) + v * 2;
      v := v * 2 + Shifted(entropy[bit / 8], 7 - bit % 8) % 2;
      b := b + 1;
    }
    assert TwoTo(5) == 32;
  }

  // ----- Reading

  function Upper(c: char): char {
    if 'a' <= c <= 'z' then c - 'a' + 'A' else c
  }

  function IndexOf(s: string, c: char): Option<nat> {
    if s == "" then None
    else if s[|s| - 1] == c && IndexOf(s[..|s| - 1], c).None? then Some(|s| - 1)
    else IndexOf(s[..|s| - 1], c)
  }

  /** The digit a character stands for, in either case. */
  function CrockfordValue(c: char): Option<nat> {
    IndexOf(ALPHABET, Upper(c))
  }

  lemma {:induction false} IndexOfIs(s: string, c: char)
    ensures IndexOf(s, c).Some? ==> IndexOf(s, c).value < |s| && s[IndexOf(s, c).value] == c
    ensures IndexOf(s, c).None? ==> c !in s
  {
    if s != "" {
      IndexOfIs(s[..|s| - 1], c);
    }
  }

  /** A character stands for `v` exactly when its upper case is character `v` of the alphabet. */
  lemma CrockfordValueIs(c: char, v: nat)
    requires v < 32
    ensures CrockfordValue(c) == Some(v) <==> Upper(c) == Symbol(v)
  {
    IndexOfIs(ALPHABET, Upper(c));
    var r := IndexOf(ALPHABET, Upper(c));
    if r.Some? && r.value < v {
      AlphabetAscends(r.value, v);
    } else if r.Some? && r.value > v {
      AlphabetAscends(v, r.value);
    }
  }

  predicate IsCrockford(s: string) {
    forall i | 0 <= i < |s| :: CrockfordValue(s[i]).Some?
  }

  /** The number that base-32 characters spell. */
  function Digits(s: string): nat
    requires IsCrockford(s)
  {
    if s == "" then 0 else Digits(s[..|s| - 1]) * 32 + CrockfordValue(s[|s| - 1]).value
  }

  datatype ParseError = InvalidULID

  /** The milliseconds of an identifier. */
  method ParseULIDTime(id: string) returns (r: Result<nat, ParseError>)
    ensures r.Ok? <==> |id| == 26 && IsCrockford(id) && Digits(id[..10]) < MAX_TIME
    ensures r.Ok? ==> r.value == Digits(id[..10])
  {
    if |id| != 26 {
      return Err(InvalidULID);
    }
    var ms: nat := 0;
    var i := 0;
    while i < 10
      invariant 0 <= i <= 10
      invariant IsCrockford(id[..i]) && ms == Digits(id[..i])
    {
      var v := CrockfordValue(id[i]);
      if v.None? {
        return Err(InvalidULID);
      }
      ms := ms * 32 + v.value;
      assert id[..i + 1][..i] == id[..i];
      i := i + 1;
    }
    while i < 26
      invariant 10 <= i <= 26
      invariant IsCrockford(id[..i])
    {
      if CrockfordValue(id[i]).None? {
        return Err(InvalidULID);
      }
      i := i + 1;
    }
    assert id[..26] == id;
    if ms >= MAX_TIME {
      return Err(InvalidULID);
    }
    return Ok(ms);
  }

  function UpperAll(s: string): (u: string)
    ensures |u| == |s|
  {
    seq(|s|, i requires 0 <= i < |s| => Upper(s[i]))
  }

  lemma UpperLast(s: string, k: nat)
    requires |s| == k + 1
    ensures UpperAll(s) == UpperAll(s[..k]) + [Upper(s[k])]
  {
    hide Upper;
  }

  /** What the last character adds. */
  lemma LastCharacter(s: string, k: nat)
    requires |s| == k + 1
    ensures IsCrockford(s) <==> IsCrockford(s[..k]) && CrockfordValue(s[k]).Some?
    ensures IsCrockford(s) ==> Digits(s) == Digits(s[..k]) * 32 + CrockfordValue(s[k]).value
  {
    hide CrockfordValue;
    forall i | 0 <= i < k ensures s[..k][i] == s[i] {}
    if IsCrockford(s[..k]) && CrockfordValue(s[k]).Some? {
      forall i | 0 <= i < |s| ensures CrockfordValue(s[i]).Some? {
        if i < k {
          assert CrockfordValue(s[..k][i]).Some?;
        }
      }
    }
  }

  lemma CrockfordRange(c: char)
    ensures CrockfordValue(c).Some? ==> CrockfordValue(c).value < 32
  {
    IndexOfIs(ALPHABET, Upper(c));
  }

  /** A text of base-32 characters spells `n` exactly when in upper case it is the digits of `n`. */
  lemma {:induction false} DigitsAreBase32(s: string, n: nat)
    requires n < Power(|s|)
    ensures IsCrockford(s) && Digits(s) == n <==> UpperAll(s) == Base32(n, |s|)
  {
    if s != "" {
      var k := |s| - 1;
      DigitsAreBase32(s[..k], n / 32);
      hide Symbol, CrockfordValue, UpperAll, IsCrockford, Digits;
      UpperLast(s, k);
      LastCharacter(s, k);
      CrockfordRange(s[k]);
      CrockfordValueIs(s[k], n % 32);
      SnocEqual(UpperAll(s[..k]), Upper(s[k]), Base32(n / 32, k), Symbol(n % 32));
    }
  }

  lemma {:induction false} DigitsBound(s: string)
    requires IsCrockford(s)
    ensures Digits(s) < Power(|s|)
  {
    if s != "" {
      DigitsBound(s[..|s| - 1]);
      IndexOfIs(ALPHABET, Upper(s[|s| - 1]));
    }
  }

  /**
   Parsing accepts exactly the identifiers that encoding can produce, in any mixture of
   cases, and returns the time that was encoded.
   */
  lemma ParsedIsEncoded(id: string, ms: nat)
    requires ms < MAX_TIME
    ensures |id| == 26 && IsCrockford(id) && Digits(id[..10]) == ms <==>
            exists e: nat :: e < MAX_ENTROPY && UpperAll(id) == Encoding(ms, e)
  {
    Powers();
    if |id| == 26 {
      var a, b := id[..10], id[10..];
      assert id == a + b && UpperAll(id) == UpperAll(a) + UpperAll(b);
      DigitsAreBase32(a, ms);
      if IsCrockford(id) && Digits(a) == ms {
        assert IsCrockford(b);
        DigitsBound(b);
        DigitsAreBase32(b, Digits(b));
        assert Digits(b) < MAX_ENTROPY && UpperAll(id) == Encoding(ms, Digits(b));
      }
      forall e: nat | e < MAX_ENTROPY && UpperAll(id) == Encoding(ms, e) ensures IsCrockford(id) && Digits(a) == ms {
        assert UpperAll(a) == UpperAll(id)[..10] == Base32(ms, 10);
        assert UpperAll(b) == UpperAll(id)[10..] == Base32(e, 16);
        DigitsAreBase32(b, e);
        assert forall i | 0 <= i < 26 :: id[i] == if i < 10 then a[i] else b[i - 10];
      }
    }
  }

  lemma {:induction false} DigitsAreUpper(n: nat, len: nat)
    ensures UpperAll(Base32(n, len)) == Base32(n, len)
  {
    if len > 0 {
      DigitsAreUpper(n / 32, len - 1);
      var s := Base32(n / 32, len - 1);
      assert Symbol(n % 32) <= 'Z' by {
        if n % 32 < 31 {
          AlphabetAscends(n % 32, 31);
        }
      }
      assert UpperAll(s + [Symbol(n % 32)]) == UpperAll(s) + [Symbol(n % 32)];
    }
  }

  /** The time of an encoding reads back. */
  lemma TimeReadsBack(ms: nat, e: nat)
    requires ms < MAX_TIME && e < MAX_ENTROPY
    ensures var id := Encoding(ms, e); |id| == 26 && IsCrockford(id) && Digits(id[..10]) == ms
  {
    var id := Encoding(ms, e);
    DigitsAreUpper(ms, 10);
    DigitsAreUpper(e, 16);
    assert UpperAll(id) == UpperAll(Base32(ms, 10)) + UpperAll(Base32(e, 16));
    ParsedIsEncoded(id, ms);
  }

  /** The alphabet is the digits and the capital letters but I, L, O and U, in their order. */
  lemma AlphabetIs(c: char)
    ensures (exists v :: 0 <= v < 32 && Symbol(v) == c) <==> ('0' <= c <= '9' || 'A' <= c <= 'Z') && c !in "ILOU"
    ensures forall v, w | 0 <= v < w < 32 :: Symbol(v) < Symbol(w)
  {
    hide Symbol;
    forall v, w | 0 <= v < w < 32 ensures Symbol(v) < Symbol(w) {
      AlphabetAscends(v, w);
    }
    SymbolOf(c);
  }

  lemma SymbolOf(c: char)
    ensures (exists v :: 0 <= v < 32 && Symbol(v) == c) <==> ('0' <= c <= '9' || 'A' <= c <= 'Z') && c !in "ILOU"
  {
    var n := c as int;
    var v := if c <= '9' then n - 48 else if c < 'I' then n - 55 else if c < 'L' then n - 56 else if c < 'O' then n - 57
             else if c < 'U' then n - 58 else n - 59;
    if ('0' <= c <= '9' || 'A' <= c <= 'Z') && c !in "ILOU" {
      assert Symbol(v) == c;
    }
  }

  /** A character is read as the symbol that it is, or of which it is the small letter. */
  lemma ReadIff(c: char, v: nat)
    requires v < 32
    ensures CrockfordValue(c) == Some(v) <==>
            c == Symbol(v) || ('a' <= c <= 'z' && c as int == Symbol(v) as int + 32)
  {
    hide Symbol, CrockfordValue;
    CrockfordValueIs(c, v);
    SymbolOf(Symbol(v));
    assert 0 <= v < 32 && Symbol(v) == Symbol(v);
  }

  // ----- The generator

  /** What the generator remembers: the time and the entropy of its last identifier. */
  datatype Last = Last(ms: nat, entropy: nat)

  /** The timestamp: instants before 1970 count as 0 and only 48 bits are kept. */
  function Millis(unix: int): (ms: nat)
    ensures ms < MAX_TIME
  {
    if unix > 0 then unix % MAX_TIME else 0
  }

  function After(last: Option<Last>, unix: int, drawn: nat): Last {
    var ms := Millis(unix);
    if last.Some? && last.value.ms == ms && last.value.entropy + 1 < MAX_ENTROPY then Last(ms, last.value.entropy + 1)
    else Last(ms, drawn)
  }

  class Generator {
    var hasLast: bool
    var lastMS: nat
    const entropy: array<Byte>

    ghost predicate Valid()
      reads this, entropy
    {
      entropy.Length == 10 && lastMS < MAX_TIME
    }

    ghost function Remembered(): Option<Last>
      requires Valid()
      reads this, entropy
    {
      if hasLast then Some(Last(lastMS, Number(entropy[..]))) else None
    }

    constructor ()
      ensures Valid() && Remembered() == None && fresh(entropy)
    {
      hasLast, lastMS := false, 0;
      entropy := new Byte[10](_ => 0);
    }

    /** `random` holds the bytes that the random source would deliver. */
    method NewULIDAt(unix: int, random: seq<Byte>) returns (id: string)
      requires Valid() && |random| == 10
      modifies this, entropy
      ensures Valid() && Remembered() == Some(After(old(Remembered()), unix, Number(random)))
      ensures id == Encoding(Remembered().value.ms, Remembered().value.entropy)
      ensures 0 <= unix < 281_474_976_710_656 ==> Remembered().value.ms == unix
      ensures unix <= 0 ==> Remembered().value.ms == 0
    {
      var ms := Millis(unix);
      hide Number, Encoding;
      TenBytes(entropy[..]);
      if hasLast && ms == lastMS {
        var ok := IncrementEntropy(entropy);
        if !ok {
          Randomize(random);
        }
      } else {
        Randomize(random);
      }
      hasLast, lastMS := true, ms;
      id := EncodeULID(ms, entropy);
    }

    method Randomize(random: seq<Byte>)
      requires Valid() && |random| == 10
      modifies entropy
      ensures entropy[..] == random
    {
      forall i | 0 <= i < 10 {
        entropy[i] := random[i];
      }
    }
  }

  // ----- Runs of the generator

  /** The state after each of a number of calls: call `i` at time `times[i]` with random value `draws[i]`. */
  ghost predicate Run(lasts: seq<Last>, times: seq<int>, draws: seq<nat>) {
    |lasts| == |times| == |draws| &&
    (forall i | 0 <= i < |draws| :: draws[i] < MAX_ENTROPY) &&
    forall i | 0 <= i < |lasts| :: lasts[i] == After(Previous(lasts, i), times[i], draws[i])
  }

  function Previous(lasts: seq<Last>, i: nat): Option<Last>
    requires i <= |lasts|
  {
    if i == 0 then None else Some(lasts[i - 1])
  }

  function IdOf(last: Last): string {
    Encoding(last.ms, last.entropy)
  }

  lemma RunStep(lasts: seq<Last>, times: seq<int>, draws: seq<nat>, i: nat)
    requires Run(lasts, times, draws) && i < |lasts|
    ensures |lasts| == |times| == |draws| && lasts[i] == After(Previous(lasts, i), times[i], draws[i])
  {}

  lemma {:induction false} RunBounds(lasts: seq<Last>, times: seq<int>, draws: seq<nat>, i: nat)
    requires Run(lasts, times, draws) && i < |lasts|
    ensures |lasts| == |times| && lasts[i].ms == Millis(times[i]) < MAX_TIME && lasts[i].entropy < MAX_ENTROPY
  {
    assert lasts[i] == After(Previous(lasts, i), times[i], draws[i]);
  }

  /**
   An identifier sorts after the one generated just before it exactly when its millisecond is
   later, or is the same and the entropy has not reached its maximum.
   */
  lemma SuccessorOrder(lasts: seq<Last>, times: seq<int>, draws: seq<nat>, i: nat)
    requires Run(lasts, times, draws) && i + 1 < |lasts|
    ensures Before(IdOf(lasts[i]), IdOf(lasts[i + 1])) <==>
            Millis(times[i]) < Millis(times[i + 1]) ||
            (Millis(times[i]) == Millis(times[i + 1]) && lasts[i].entropy < MAX_ENTROPY - 1)
  {
    RunBounds(lasts, times, draws, i);
    RunBounds(lasts, times, draws, i + 1);
    EncodingOrder(lasts[i].ms, lasts[i].entropy, lasts[i + 1].ms, lasts[i + 1].entropy);
    assert lasts[i + 1] == After(Some(lasts[i]), times[i + 1], draws[i + 1]);
  }

  predicate Earlier(a: Last, b: Last) {
    a.ms < b.ms || (a.ms == b.ms && a.entropy < b.entropy)
  }

  /** Step `k + 1` comes in a later millisecond, or in the same one with room for one more. */
  predicate Rises(lasts: seq<Last>, times: seq<int>, k: nat)
    requires k + 1 < |lasts| == |times|
  {
    Millis(times[k]) < Millis(times[k + 1]) ||
    (Millis(times[k]) == Millis(times[k + 1]) && lasts[k].entropy < MAX_ENTROPY - 1)
  }

  /** Step `k + 1` stays in its millisecond at the maximal entropy. */
  predicate Stalls(lasts: seq<Last>, times: seq<int>, k: nat)
    requires k + 1 < |lasts| == |times|
  {
    Millis(times[k]) == Millis(times[k + 1]) && lasts[k].entropy == MAX_ENTROPY - 1
  }

  /** Every identifier sorts after all earlier ones. */
  ghost predicate AllAscend(lasts: seq<Last>) {
    forall i, j | 0 <= i < j < |lasts| :: Before(IdOf(lasts[i]), IdOf(lasts[j]))
  }

  /** A clock that does not go back, below 2^48 milliseconds. */
  predicate Forward(times: seq<int>) {
    (forall k | 0 <= k < |times| :: times[k] < MAX_TIME) && forall k, m | 0 <= k <= m < |times| :: times[k] <= times[m]
  }

  lemma MillisGrow(a: int, b: int)
    requires a <= b < MAX_TIME
    ensures Millis(a) <= Millis(b)
  {
    assert a > 0 ==> a % MAX_TIME == a;
    assert b > 0 ==> b % MAX_TIME == b;
  }

  lemma {:induction false} RunGrows(lasts: seq<Last>, times: seq<int>, draws: seq<nat>, i: nat, j: nat)
    requires Run(lasts, times, draws) && i < j < |lasts| == |times|
    requires forall k | 0 <= k < |lasts| - 1 :: Rises(lasts, times, k)
    ensures Earlier(lasts[i], lasts[j])
    decreases j
  {
    hide Millis, Run;
    RunBounds(lasts, times, draws, j - 1);
    RunStep(lasts, times, draws, j);
    assert Rises(lasts, times, j - 1);
    if i < j - 1 {
      RunGrows(lasts, times, draws, i, j - 1);
    }
  }

  /**
   All identifiers of a run ascend exactly when every step rises. With a clock that does not
   go back, that is: no step stays in its millisecond at the maximal entropy.
   */
  lemma RunAscendsIff(lasts: seq<Last>, times: seq<int>, draws: seq<nat>)
    requires Run(lasts, times, draws)
    ensures |lasts| == |times|
    ensures AllAscend(lasts) <==> forall k | 0 <= k < |lasts| - 1 :: Rises(lasts, times, k)
    ensures Forward(times) ==> (AllAscend(lasts) <==> forall k | 0 <= k < |lasts| - 1 :: !Stalls(lasts, times, k))
  {
    hide IdOf, Millis, Run;
    SameLength(lasts, times, draws);
    if forall k | 0 <= k < |lasts| - 1 :: Rises(lasts, times, k) {
      forall i, j | 0 <= i < j < |lasts| ensures Before(IdOf(lasts[i]), IdOf(lasts[j])) {
        RunGrows(lasts, times, draws, i, j);
        EarlierSortsFirst(lasts, times, draws, i, j);
      }
    }
    forall k | 0 <= k < |lasts| - 1
      ensures AllAscend(lasts) ==> Rises(lasts, times, k)
      ensures Forward(times) ==> (Rises(lasts, times, k) <==> !Stalls(lasts, times, k))
    {
      SuccessorOrder(lasts, times, draws, k);
      RunBounds(lasts, times, draws, k);
      if Forward(times) {
        MillisGrow(times[k], times[k + 1]);
      }
    }
  }

  lemma SameLength(lasts: seq<Last>, times: seq<int>, draws: seq<nat>)
    requires Run(lasts, times, draws)
    ensures |lasts| == |times|
  {}

  lemma EarlierSortsFirst(lasts: seq<Last>, times: seq<int>, draws: seq<nat>, i: nat, j: nat)
    requires Run(lasts, times, draws) && i < j < |lasts|
    ensures Earlier(lasts[i], lasts[j]) <==> Before(IdOf(lasts[i]), IdOf(lasts[j]))
  {
    RunBounds(lasts, times, draws, i);
    RunBounds(lasts, times, draws, j);
    EncodingOrder(lasts[i].ms, lasts[i].entropy, lasts[j].ms, lasts[j].entropy);
  }

  /** So they do when each random value leaves room for the run. */
  lemma RunAscends(lasts: seq<Last>, times: seq<int>, draws: seq<nat>)
    requires Run(lasts, times, draws) && Forward(times)
    requires forall k | 0 <= k < |draws| :: draws[k] + |draws| <= MAX_ENTROPY
    ensures AllAscend(lasts)
  {
    hide IdOf, Millis;
    RunAscendsIff(lasts, times, draws);
    forall k | 0 <= k < |lasts| - 1 ensures !Stalls(lasts, times, k) {
      RoomLeft(lasts, times, draws, k);
    }
  }

  lemma {:induction false} RoomLeft(lasts: seq<Last>, times: seq<int>, draws: seq<nat>, i: nat)
    requires Run(lasts, times, draws) && i < |lasts|
    requires forall k | 0 <= k < |draws| :: draws[k] + |draws| <= MAX_ENTROPY
    ensures |draws| == |lasts| && lasts[i].entropy <= MAX_ENTROPY - |draws| + i
  {
    RunStep(lasts, times, draws, i);
    if i > 0 {
      RoomLeft(lasts, times, draws, i - 1);
    }
  }
}
