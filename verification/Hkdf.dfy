/**
 Key derivation of src/security/secret.go: HKDF (RFC 5869) with a one-byte block counter.
 HMAC-SHA256 is a parameter of which only the length of its output is known.
 */
module Hkdf {
  import opened Bytes
  import opened Results

  type Octets = seq<Byte>
  type Mac = (Octets, Octets) -> Octets

  const HASH_SIZE: nat := 32
  const MAX_DERIVE_LENGTH: nat := 255 * HASH_SIZE

  ghost predicate IsMac(mac: Mac) {
    forall key, message :: |mac(key, message)| == HASH_SIZE
  }

  // ----- Section 2 of RFC 5869

  function Extract(mac: Mac, salt: Octets, ikm: Octets): Octets {
    mac(if salt == [] then seq(HASH_SIZE, _ => 0) else salt, ikm)
  }

  /** T(i) of section 2.3: T(0) is empty, and i is one octet. */
  function T(mac: Mac, prk: Octets, info: Octets, i: nat): Octets
    requires i <= 255
  {
    if i == 0 then [] else mac(prk, T(mac, prk, info, i - 1) + info + [i])
  }

  /** T(1) | T(2) | ... | T(n). */
  function Ts(mac: Mac, prk: Octets, info: Octets, n: nat): Octets
    requires n <= 255
  {
    if n == 0 then [] else Ts(mac, prk, info, n - 1) + T(mac, prk, info, n)
  }

  lemma {:induction false} TsLength(mac: Mac, prk: Octets, info: Octets, n: nat)
    requires IsMac(mac) && n <= 255
    ensures |Ts(mac, prk, info, n)| == n * HASH_SIZE
  {
    if n > 0 {
      TsLength(mac, prk, info, n - 1);
    }
  }

  lemma {:induction false} TsPrefix(mac: Mac, prk: Octets, info: Octets, m: nat, n: nat)
    requires m <= n <= 255
    ensures Ts(mac, prk, info, m) <= Ts(mac, prk, info, n)
  {
    if m < n {
      TsPrefix(mac, prk, info, m, n - 1);
    }
  }

  /** OKM of section 2.3: the first `length` octets of T(1) | ... | T(255). */
  ghost function Okm(mac: Mac, prk: Octets, info: Octets, length: nat): (r: Octets)
    requires IsMac(mac) && length <= MAX_DERIVE_LENGTH
    ensures |r| == length
  {
    TsLength(mac, prk, info, 255);
    Ts(mac, prk, info, 255)[..length]
  }

  // ----- The code

  method HkdfExtract(mac: Mac, salt: Octets, ikm: Octets) returns (prk: Octets)
    ensures prk == Extract(mac, salt, ikm)
  {
    var key := salt;
    if |key| == 0 {
      key := seq(HASH_SIZE, _ => 0);
    }
    prk := mac(key, ikm);
  }

  /**
   The counter wraps like the byte it is, but within the length limit no round that runs
   sees a wrapped value.
   */
  method HkdfExpand(mac: Mac, prk: Octets, info: Octets, length: nat) returns (out: Octets)
    requires IsMac(mac) && length <= MAX_DERIVE_LENGTH
    ensures out == Okm(mac, prk, info, length)
  {
    out := [];
    var block: Octets := [];
    var counter: Byte := 1;
    ghost var rounds: nat := 0;
    while |out| < length
      invariant rounds <= 255 && |out| == rounds * HASH_SIZE && counter == (rounds + 1) % 256
      invariant block == T(mac, prk, info, rounds) && out == Ts(mac, prk, info, rounds)
      decreases length - |out|
    {
      assert counter == rounds + 1 <= 255;
      block := mac(prk, block + info + [counter]);
      out := out + block;
      counter := (counter as int + 1) % 256;
      rounds := rounds + 1;
    }
    TsLength(mac, prk, info, 255);
    TsPrefix(mac, prk, info, rounds, 255);
    return out[..length];
  }

  datatype DeriveError = InvalidDeriveLength

  method Derive(mac: Mac, secret: Octets, purpose: Octets, length: int) returns (r: Result<Octets, DeriveError>)
    requires IsMac(mac)
    ensures r.Ok? <==> 0 < length <= 8160
    ensures r.Ok? ==> r.value == Okm(mac, Extract(mac, [], secret), purpose, length)
  {
    if length <= 0 || length > MAX_DERIVE_LENGTH {
      return Err(InvalidDeriveLength);
    }
    var prk := HkdfExtract(mac, [], secret);
    var out := HkdfExpand(mac, prk, purpose, length);
    return Ok(out);
  }

  // ----- What derived keys have in common

  /** A shorter derivation for the same purpose is a prefix of a longer one. */
  lemma ShorterIsPrefix(mac: Mac, prk: Octets, info: Octets, short: nat, long: nat)
    requires IsMac(mac) && short <= long <= MAX_DERIVE_LENGTH
    ensures Okm(mac, prk, info, short) <= Okm(mac, prk, info, long)
  {
    TsLength(mac, prk, info, 255);
  }

  /** Octet `k` lies in block k / 32 + 1, so it depends on no later counter. */
  lemma OctetOfBlock(mac: Mac, prk: Octets, info: Octets, length: nat, k: nat)
    requires IsMac(mac) && k < length <= MAX_DERIVE_LENGTH
    ensures |T(mac, prk, info, k / HASH_SIZE + 1)| == HASH_SIZE
    ensures Okm(mac, prk, info, length)[k] == T(mac, prk, info, k / HASH_SIZE + 1)[k % HASH_SIZE]
  {
    var n := k / HASH_SIZE;
    TsLength(mac, prk, info, n);
    TsLength(mac, prk, info, 255);
    TsPrefix(mac, prk, info, n + 1, 255);
    var block := T(mac, prk, info, n + 1);
    assert |block| == HASH_SIZE;
    assert Ts(mac, prk, info, n + 1) == Ts(mac, prk, info, n) + block;
    assert Ts(mac, prk, info, n + 1)[k] == block[k % HASH_SIZE];
  }

  /** The output for one and for two blocks, written out as in section 2.3 of RFC 5869; an empty salt counts as 32 zero octets. */
  lemma FirstBlocks(mac: Mac, ikm: Octets, info: Octets)
    requires IsMac(mac)
    ensures var prk := mac(seq(32, _ => 0), ikm);
            var t1 := mac(prk, info + [1]);
            var t2 := mac(prk, t1 + info + [2]);
            Okm(mac, Extract(mac, [], ikm), info, 32) == t1 && Okm(mac, Extract(mac, [], ikm), info, 64) == t1 + t2
  {
    var prk := Extract(mac, [], ikm);
    var zeros: Octets := seq(HASH_SIZE, _ => 0);
    assert zeros == seq(32, _ => 0) && prk == mac(zeros, ikm);
    var t1 := T(mac, prk, info, 1);
    var t2 := T(mac, prk, info, 2);
    assert t1 == mac(prk, info + [1]) by {
      assert T(mac, prk, info, 0) + info + [1] == info + [1];
    }
    assert Ts(mac, prk, info, 0) == [];
    assert Ts(mac, prk, info, 1) == [] + t1 == t1;
    assert Ts(mac, prk, info, 2) == t1 + t2;
    TsPrefix(mac, prk, info, 1, 255);
    TsPrefix(mac, prk, info, 2, 255);
    TsLength(mac, prk, info, 255);
  }
}
